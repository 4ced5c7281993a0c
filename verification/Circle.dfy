/** The display's circle rasteriser: one quarter arc by integer arithmetic, mirrored four times. */
module Circle {
  import opened Bytes
  import opened Ssd1306

  /** A pixel of the second quadrant's arc, relative to the centre: x runs from -r to 0, y from 0 to r. */
  datatype Offset = Offset(x: int, y: int)

  function Max(a: int, b: int): int {
    if a >= b then a else b
  }

  /** Squared distance from the centre, less the squared radius. */
  function Excess(p: Offset, r: nat): int {
    p.x * p.x + p.y * p.y - r * r
  }

  /** Inside the quarter, and off the circle by no more than the larger coordinate. */
  ghost predicate OnArc(p: Offset, r: nat) {
    && 0 - r <= p.x <= 0 <= p.y <= r
    && -Max(-p.x, p.y) <= Excess(p, r) <= Max(-p.x, p.y)
  }

  /** The value that decides the next step: the excess of the diagonal neighbour. */
  function Decision(p: Offset, r: nat): int {
    Excess(Offset(p.x + 1, p.y + 1), r)
  }

  /** The pixel after `p`. */
  function Next(p: Offset, r: nat): Offset {
    var e := Decision(p, r);
    var y := if e <= p.y then p.y + 1 else p.y;
    var e2 := if e <= p.y && -p.x == y && e <= p.x then 0 else e;
    Offset(if e2 > p.x then p.x + 1 else p.x, y)
  }

  lemma Expand(p: Offset, r: nat)
    ensures Excess(Offset(p.x + 1, p.y), r) == Excess(p, r) + 2 * p.x + 1
    ensures Excess(Offset(p.x, p.y + 1), r) == Excess(p, r) + 2 * p.y + 1
    ensures Decision(p, r) == Excess(p, r) + 2 * p.x + 2 * p.y + 2
  {
    assert (p.x + 1) * (p.x + 1) == p.x * p.x + 2 * p.x + 1;
    assert (p.y + 1) * (p.y + 1) == p.y * p.y + 2 * p.y + 1;
  }

  lemma NeverAbove(p: Offset, r: nat)
    requires OnArc(p, r) && p.y == r
    ensures Decision(p, r) > p.y
  {
    Expand(p, r);
    assert (p.x + 1) * (p.x + 1) == p.x * p.x + 2 * p.x + 1;
    assert (p.x + 1) * (p.x + 1) >= 0;
  }

  lemma AxisIsTop(p: Offset, r: nat)
    requires OnArc(p, r) && p.x == 0
    ensures p.y == r
  {
    if p.y < r {
      assert (p.y + 1) * (p.y + 1) == p.y * p.y + 2 * p.y + 1;
      SquareGrows(p.y + 1, r);
    }
  }

  lemma SquareGrows(a: nat, b: nat)
    requires a <= b
    ensures a * a <= b * b
  {
    assert a * a <= a * b <= b * b;
  }

  /** Each step keeps to the arc, moves by at most one pixel on either axis and by at least one on
      some, and leaves the quarter only from (0, r). */
  lemma NextOnArc(p: Offset, r: nat)
    requires OnArc(p, r)
    ensures var q := Next(p, r);
      && p.x <= q.x <= p.x + 1 && p.y <= q.y <= p.y + 1 && q != p
      && p.x <= 0 && p.y <= r
      && (if p == Offset(0, r) then q.x == 1 else OnArc(q, r) && q.x <= 0 && q.y <= r)
  {
    hide Excess;
    Expand(p, r);
    var q := Next(p, r);
    Expand(Offset(p.x, p.y + 1), r);
    if p.y == r {
      NeverAbove(p, r);
    }
    if p.x == 0 {
      AxisIsTop(p, r);
      TopExcess(r);
    }
  }

  lemma TopExcess(r: nat)
    ensures Excess(Offset(0, r), r) == 0
  {
  }

  /** The arc from `p` on. */
  function Arc(p: Offset, r: nat): (path: seq<Offset>)
    requires OnArc(p, r)
    ensures path != [] && path[0] == p
    decreases r - p.y - p.x
  {
    NextOnArc(p, r);
    if p == Offset(0, r) then [p] else [p] + Arc(Next(p, r), r)
  }

  lemma StartExcess(r: nat)
    ensures Excess(Offset(0 - r, 0), r) == 0
  {
    assert (0 - r) * (0 - r) == r * r;
  }

  lemma StartOnArc(r: nat)
    ensures OnArc(Offset(0 - r, 0), r) && Decision(Offset(0 - r, 0), r) == 2 - 2 * r
  {
    hide Excess;
    StartExcess(r);
    Expand(Offset(0 - r, 0), r);
    assert Excess(Offset(0 - r, 0), r) == 0;
  }

  function Quarter(r: nat): (path: seq<Offset>)
    ensures path != []
  {
    StartOnArc(r);
    Arc(Offset(0 - r, 0), r)
  }

  predicate Neighbours(p: Offset, q: Offset) {
    p.x <= q.x <= p.x + 1 && p.y <= q.y <= p.y + 1 && q != p
  }

  lemma {:induction false} ArcShape(p: Offset, r: nat)
    requires OnArc(p, r)
    ensures var path := Arc(p, r);
      && path[|path| - 1] == Offset(0, r)
      && (forall k :: 0 <= k < |path| ==> OnArc(path[k], r))
      && (forall k :: 0 < k < |path| ==> Neighbours(path[k - 1], path[k]))
    decreases r - p.y - p.x
  {
    hide OnArc, Next;
    NextOnArc(p, r);
    if p != Offset(0, r) {
      ArcShape(Next(p, r), r);
    }
  }

  /** For every radius the arc runs from (-r, 0) to (0, r) in steps of at most one pixel on either
      axis, and every pixel is off the circle by at most the larger of its coordinates. */
  lemma CircleAccuracy(r: nat)
    ensures var path := Quarter(r);
      && path[0] == Offset(0 - r, 0) && path[|path| - 1] == Offset(0, r)
      && (forall k :: 0 < k < |path| ==> Neighbours(path[k - 1], path[k]))
      && (forall k :: 0 <= k < |path| ==>
            -Max(-path[k].x, path[k].y) <= path[k].x * path[k].x + path[k].y * path[k].y - r * r
            <= Max(-path[k].x, path[k].y))
  {
    StartOnArc(r);
    ArcShape(Offset(0 - r, 0), r);
    var path := Quarter(r);
    forall k | 0 <= k < |path|
      ensures -Max(-path[k].x, path[k].y) <= Excess(path[k], r) <= Max(-path[k].x, path[k].y)
    {
      assert OnArc(path[k], r);
    }
  }

  /** In other words: every pixel is within half a pixel of the true circle. */
  lemma WithinHalfAPixel(p: Offset, r: nat)
    requires OnArc(p, r) && r > 0
    ensures (2 * r - 1) * (2 * r - 1) <= 4 * (p.x * p.x + p.y * p.y) <= (2 * r + 1) * (2 * r + 1)
  {
    Doubled(r);
    if -p.x == r || p.y == r {
      ExtremesOutside(p, r);
    }
    FourTimes(Excess(p, r), Max(-p.x, p.y), r, r * r);
  }

  lemma FourTimes(e: int, m: int, r: int, square: int)
    requires -m <= e <= m <= r && r > 0 && (m == r ==> e >= 0)
    ensures 4 * square - 4 * r + 1 <= 4 * (square + e) <= 4 * square + 4 * r + 1
  {
  }

  lemma Doubled(r: nat)
    ensures (2 * r - 1) * (2 * r - 1) == 4 * (r * r) - 4 * r + 1
    ensures (2 * r + 1) * (2 * r + 1) == 4 * (r * r) + 4 * r + 1
  {
  }

  lemma ExtremesOutside(p: Offset, r: nat)
    requires OnArc(p, r) && (-p.x == r || p.y == r)
    ensures Excess(p, r) >= 0
  {
    assert p.x * p.x >= 0 && p.y * p.y >= 0;
    if -p.x == r {
      assert p.x * p.x == r * r;
    } else {
      assert p.y * p.y == r * r;
    }
  }

  /** The arc has no gaps: every row and every column of the quarter is visited. */
  lemma {:induction false} EveryRow(p: Offset, r: nat, y: int)
    requires OnArc(p, r) && p.y <= y <= r
    ensures exists k :: 0 <= k < |Arc(p, r)| && Arc(p, r)[k].y == y
    decreases r - p.y - p.x
  {
    hide OnArc, Next;
    NextOnArc(p, r);
    var path := Arc(p, r);
    if p.y == y {
      assert path[0].y == y;
    } else {
      var rest := Arc(Next(p, r), r);
      EveryRow(Next(p, r), r, y);
      var k :| 0 <= k < |rest| && rest[k].y == y;
      assert path[k + 1] == rest[k];
    }
  }

  lemma {:induction false} EveryColumn(p: Offset, r: nat, x: int)
    requires OnArc(p, r) && p.x <= x <= 0
    ensures exists k :: 0 <= k < |Arc(p, r)| && Arc(p, r)[k].x == x
    decreases r - p.y - p.x
  {
    hide OnArc, Next;
    NextOnArc(p, r);
    var path := Arc(p, r);
    if p.x == x {
      assert path[0].x == x;
    } else {
      var rest := Arc(Next(p, r), r);
      EveryColumn(Next(p, r), r, x);
      var k :| 0 <= k < |rest| && rest[k].x == x;
      assert path[k + 1] == rest[k];
    }
  }

  // On the screen -------------------------------------------------------------------------------

  /** A coordinate as it is passed on, in eight bits. */
  function Coordinate(n: int): nat {
    n % 256
  }

  /** The four mirror images of an offset. */
  predicate Mirrored(p: Offset, cx: nat, cy: nat, x: nat, y: nat) {
    && (x == Coordinate(cx - p.x) || x == Coordinate(cx + p.x))
    && (y == Coordinate(cy + p.y) || y == Coordinate(cy - p.y))
  }

  ghost predicate Hit(path: seq<Offset>, cx: nat, cy: nat, x: nat, y: nat) {
    exists k :: 0 <= k < |path| && Mirrored(path[k], cx, cy, x, y)
  }

  /** The images of `path` have the color, and all other pixels are as before. */
  ghost predicate Drawn(before: seq<Byte>, path: seq<Offset>, cx: nat, cy: nat, color: Color, after: seq<Byte>) {
    && |before| == |after| == BUFFER_SIZE
    && forall x, y :: 0 <= x < WIDTH && 0 <= y < HEIGHT ==>
         Lit(after, x, y) == if Hit(path, cx, cy, x, y) then color.White? else Lit(before, x, y)
  }

  lemma DrawnMore(before: seq<Byte>, path: seq<Offset>, p: Offset, cx: nat, cy: nat, color: Color,
                  middle: seq<Byte>, after: seq<Byte>)
    requires Drawn(before, path, cx, cy, color, middle) && Drawn(middle, [p], cx, cy, color, after)
    ensures Drawn(before, path + [p], cx, cy, color, after)
  {
    hide Lit, Mirrored;
    forall x, y | 0 <= x < WIDTH && 0 <= y < HEIGHT
      ensures Hit(path + [p], cx, cy, x, y) <==> Hit(path, cx, cy, x, y) || Hit([p], cx, cy, x, y)
    {
      HitMore(path, p, cx, cy, x, y);
    }
  }

  lemma HitMore(path: seq<Offset>, p: Offset, cx: nat, cy: nat, x: nat, y: nat)
    ensures Hit(path + [p], cx, cy, x, y) <==> Hit(path, cx, cy, x, y) || Hit([p], cx, cy, x, y)
  {
    hide Mirrored;
    var longer := path + [p];
    assert longer[|path|] == p == [p][0];
    if Hit(path, cx, cy, x, y) {
      var k :| 0 <= k < |path| && Mirrored(path[k], cx, cy, x, y);
      assert longer[k] == path[k];
    }
    if Hit(longer, cx, cy, x, y) {
      var k :| 0 <= k < |longer| && Mirrored(longer[k], cx, cy, x, y);
      assert k < |path| ==> path[k] == longer[k];
    }
  }

  /** The four pixels of one offset. */
  method DrawFour(d: Display, cx: nat, cy: nat, x: int, y: int, color: Color)
    requires d.Ok()
    modifies d.buffer
    ensures Drawn(old(d.buffer[..]), [Offset(x, y)], cx, cy, color, d.buffer[..])
  {
    hide Lit;
    assert [Offset(x, y)][0] == Offset(x, y);
    d.DrawPixel(Coordinate(cx - x), Coordinate(cy + y), color);
    d.DrawPixel(Coordinate(cx + x), Coordinate(cy + y), color);
    d.DrawPixel(Coordinate(cx + x), Coordinate(cy - y), color);
    d.DrawPixel(Coordinate(cx - x), Coordinate(cy - y), color);
  }

  lemma NothingDrawn(before: seq<Byte>, cx: nat, cy: nat, color: Color)
    requires |before| == BUFFER_SIZE
    ensures Drawn(before, [], cx, cy, color, before)
  {
  }

  lemma ArcTurn(p: Offset, r: nat)
    requires OnArc(p, r)
    ensures p == Offset(0, r) ==> Arc(p, r) == [p] && Next(p, r).x > 0
    ensures p != Offset(0, r) ==>
      OnArc(Next(p, r), r) && Arc(p, r) == [p] + Arc(Next(p, r), r) && Next(p, r).x <= 0
  {
    NextOnArc(p, r);
  }

  /** Pixel (x, y), taken modulo 256, has the color, if it is on the screen. */
  predicate Paints(buffer: seq<Byte>, x: int, y: int, color: Color) {
    |buffer| == BUFFER_SIZE && (x % 256 < 128 && y % 256 < 64 ==> Lit(buffer, x % 256, y % 256) == color.White?)
  }

  /** So have all four images of an offset: left and right, above and below. */
  predicate PaintsFour(buffer: seq<Byte>, cx: nat, cy: nat, p: Offset, color: Color) {
    && Paints(buffer, cx + p.x, cy + p.y, color) && Paints(buffer, cx - p.x, cy + p.y, color)
    && Paints(buffer, cx + p.x, cy - p.y, color) && Paints(buffer, cx - p.x, cy - p.y, color)
  }

  lemma AllPainted(before: seq<Byte>, path: seq<Offset>, cx: nat, cy: nat, color: Color, after: seq<Byte>)
    requires Drawn(before, path, cx, cy, color, after)
    ensures forall k :: 0 <= k < |path| ==> PaintsFour(after, cx, cy, path[k], color)
  {
    hide Lit, Hit;
    forall k | 0 <= k < |path|
      ensures PaintsFour(after, cx, cy, path[k], color)
    {
      FourImages(path, cx, cy, k);
    }
  }

  /** An offset touches four pixels: left and right, above and below. */
  lemma FourImages(path: seq<Offset>, cx: nat, cy: nat, k: nat)
    requires k < |path|
    ensures var p := path[k];
      && Hit(path, cx, cy, (cx + p.x) % 256, (cy + p.y) % 256) && Hit(path, cx, cy, (cx - p.x) % 256, (cy + p.y) % 256)
      && Hit(path, cx, cy, (cx + p.x) % 256, (cy - p.y) % 256) && Hit(path, cx, cy, (cx - p.x) % 256, (cy - p.y) % 256)
  {
    var p := path[k];
    assert Mirrored(p, cx, cy, (cx + p.x) % 256, (cy + p.y) % 256);
    assert Mirrored(p, cx, cy, (cx - p.x) % 256, (cy + p.y) % 256);
    assert Mirrored(p, cx, cy, (cx + p.x) % 256, (cy - p.y) % 256);
    assert Mirrored(p, cx, cy, (cx - p.x) % 256, (cy - p.y) % 256);
  }

  /** For every radius the loop ends, and what it has drawn is the quarter arc, mirrored four times: all four images
      of every offset have the color, and nothing else has changed. */
  method DrawCircle(d: Display, cx: nat, cy: nat, r: nat, color: Color)
    requires d.Ok() && cx < 256 && cy < 256 && r < 256
    modifies d.buffer
    ensures cx < 128 && cy < 64 ==>
      forall k :: 0 <= k < |Quarter(r)| ==> PaintsFour(d.buffer[..], cx, cy, Quarter(r)[k], color)
    ensures if cx < 128 && cy < 64 then Drawn(old(d.buffer[..]), Quarter(r), cx, cy, color, d.buffer[..])
            else d.buffer[..] == old(d.buffer[..])
  {
    hide Excess, Drawn, OnArc, Arc, Next, PaintsFour;
    var x: int, y: int := 0 - r, 0;
    var err := 2 - 2 * r;
    if cx >= WIDTH || cy >= HEIGHT {
      return;
    }
    ghost var before, path := d.buffer[..], [];
    NothingDrawn(before, cx, cy, color);
    StartOnArc(r);
    assert [] + Quarter(r) == Quarter(r);
    var again := true;
    while again
      invariant again ==> OnArc(Offset(x, y), r) && err == Decision(Offset(x, y), r)
      invariant Quarter(r) == if again then path + Arc(Offset(x, y), r) else path
      invariant Drawn(before, path, cx, cy, color, d.buffer[..])
      decreases again, r - y - x
    {
      ghost var p, middle := Offset(x, y), d.buffer[..];
      ArcTurn(p, r);
      NextOnArc(p, r);
      DrawFour(d, cx, cy, x, y, color);
      DrawnMore(before, path, p, cx, cy, color, middle, d.buffer[..]);
      x, y, err := Advance(x, y, err, r);
      assert path + ([p] + (if x <= 0 then Arc(Offset(x, y), r) else []))
             == (path + [p]) + (if x <= 0 then Arc(Offset(x, y), r) else []);
      path := path + [p];
      again := x <= 0;
    }
    AllPainted(before, path, cx, cy, color, d.buffer[..]);
  }

  /** The step, in squares: down a row unless the diagonal neighbour is too far out, and across a column if it is not
      too far in, or if the step reaches the diagonal. */
  lemma StepExactly(p: Offset, r: nat)
    ensures var d := (p.x + 1) * (p.x + 1) + (p.y + 1) * (p.y + 1) - r * r;
      var q := Next(p, r);
      && q.y == (if d <= p.y then p.y + 1 else p.y)
      && (q.x == p.x || q.x == p.x + 1)
      && (p.x < 0 ==> (q.x == p.x + 1 <==> d > p.x || (d <= p.y && -p.x == p.y + 1)))
  {
  }

  /** One turn of the loop, without the drawing: the error is kept up to date by additions alone. */
  method Advance(x0: int, y0: int, err0: int, ghost r: nat) returns (x: int, y: int, err: int)
    requires err0 == Decision(Offset(x0, y0), r)
    ensures Offset(x, y) == Next(Offset(x0, y0), r) && err == Decision(Offset(x, y), r)
  {
    hide Excess;
    Expand(Offset(x0, y0), r);
    Expand(Offset(x0 + 1, y0), r);
    Expand(Offset(x0, y0 + 1), r);
    Expand(Offset(x0 + 1, y0 + 1), r);
    x, y, err := x0, y0, err0;
    var e2 := err;
    if e2 <= y {
      y := y + 1;
      err := err + (y * 2 + 1);
      if -x == y && e2 <= x {
        e2 := 0;
      }
    }
    if e2 > x {
      x := x + 1;
      err := err + (x * 2 + 1);
    }
  }

  // The whole circle ----------------------------------------------------------------------------

  lemma SameDistance(c: nat, d: int, q: int)
    ensures (c + d) % 256 == (c + q) % 256 <==> (c - d) % 256 == (c - q) % 256
  {
    var m := d - q;
    Congruent(c + d, c + q);
    Congruent(c - d, c - q);
    Opposite(m);
  }

  lemma Congruent(a: int, b: int)
    ensures a % 256 == b % 256 <==> (a - b) % 256 == 0
  {
  }

  lemma Opposite(m: int)
    ensures m % 256 == 0 <==> -m % 256 == 0
  {
  }

  /** The touched pixels are symmetric about both axes, for every radius and every centre. */
  lemma Symmetric(r: nat, cx: nat, cy: nat, dx: int, dy: int)
    ensures Hit(Quarter(r), cx, cy, (cx + dx) % 256, (cy + dy) % 256) <==>
      Hit(Quarter(r), cx, cy, (cx - dx) % 256, (cy + dy) % 256)
    ensures Hit(Quarter(r), cx, cy, (cx + dx) % 256, (cy + dy) % 256) <==>
      Hit(Quarter(r), cx, cy, (cx + dx) % 256, (cy - dy) % 256)
  {
    var path := Quarter(r);
    forall k | 0 <= k < |path|
      ensures Mirrored(path[k], cx, cy, (cx + dx) % 256, (cy + dy) % 256) <==>
        Mirrored(path[k], cx, cy, (cx - dx) % 256, (cy + dy) % 256)
      ensures Mirrored(path[k], cx, cy, (cx + dx) % 256, (cy + dy) % 256) <==>
        Mirrored(path[k], cx, cy, (cx + dx) % 256, (cy - dy) % 256)
    {
      MirrorBoth(path[k], cx, cy, dx, dy);
    }
  }

  lemma MirrorBoth(p: Offset, cx: nat, cy: nat, dx: int, dy: int)
    ensures Mirrored(p, cx, cy, (cx + dx) % 256, (cy + dy) % 256) <==>
      Mirrored(p, cx, cy, (cx - dx) % 256, (cy + dy) % 256)
    ensures Mirrored(p, cx, cy, (cx + dx) % 256, (cy + dy) % 256) <==>
      Mirrored(p, cx, cy, (cx + dx) % 256, (cy - dy) % 256)
  {
    SameDistance(cx, dx, p.x);
    SameDistance(cx, dx, -p.x);
    SameDistance(cy, dy, p.y);
    SameDistance(cy, dy, -p.y);
  }

  /** In row `dy` the pixels `e` to the left and to the right of the centre are touched. */
  ghost predicate LeftAndRight(r: nat, cx: nat, cy: nat, e: nat, dy: int) {
    Hit(Quarter(r), cx, cy, (cx - e) % 256, (cy + dy) % 256) && Hit(Quarter(r), cx, cy, (cx + e) % 256, (cy + dy) % 256)
  }

  /** In column `dx` the pixels `e` above and below the centre are touched. */
  ghost predicate AboveAndBelow(r: nat, cx: nat, cy: nat, dx: int, e: nat) {
    Hit(Quarter(r), cx, cy, (cx + dx) % 256, (cy - e) % 256) && Hit(Quarter(r), cx, cy, (cx + dx) % 256, (cy + e) % 256)
  }

  /** Every row of the circle is touched, on the left and on the right. */
  lemma RowsTouched(r: nat, cx: nat, cy: nat, dy: int)
    requires 0 - r <= dy <= r
    ensures exists e: nat :: e <= r && LeftAndRight(r, cx, cy, e, dy)
  {
    hide OnArc, Arc, Hit, Quarter, LeftAndRight;
    var row := if dy < 0 then -dy else dy;
    StartOnArc(r);
    StartRow(r);
    EveryRow(Offset(0 - r, 0), r, row);
    var k :| 0 <= k < |Quarter(r)| && Quarter(r)[k].y == row;
    QuarterOnArc(r);
    OffsetWithin(Quarter(r)[k], r);
    RowSides(r, cx, cy, k, dy);
    var e: nat := -Quarter(r)[k].x;
    assert LeftAndRight(r, cx, cy, e, dy);
  }

  lemma RowSides(r: nat, cx: nat, cy: nat, k: nat, dy: int)
    requires k < |Quarter(r)| && (dy == Quarter(r)[k].y || dy == -Quarter(r)[k].y) && Quarter(r)[k].x <= 0
    ensures LeftAndRight(r, cx, cy, -Quarter(r)[k].x, dy)
  {
    hide Hit, Quarter;
    FourImages(Quarter(r), cx, cy, k);
    var p := Quarter(r)[k];
    assert cx - -p.x == cx + p.x && cx + -p.x == cx - p.x && cy + -p.y == cy - p.y;
  }

  lemma StartRow(r: nat)
    requires OnArc(Offset(0 - r, 0), r)
    ensures Quarter(r) == Arc(Offset(0 - r, 0), r)
  {
    hide Arc;
  }

  lemma OffsetWithin(p: Offset, r: nat)
    requires OnArc(p, r)
    ensures 0 - r <= p.x <= 0 <= p.y <= r
  {
  }

  /** Every column of the circle is touched, above and below. */
  lemma ColumnsTouched(r: nat, cx: nat, cy: nat, dx: int)
    requires 0 - r <= dx <= r
    ensures exists e: nat :: e <= r && AboveAndBelow(r, cx, cy, dx, e)
  {
    hide OnArc, Arc, Hit, Quarter, AboveAndBelow;
    var column := if dx > 0 then -dx else dx;
    StartOnArc(r);
    StartRow(r);
    EveryColumn(Offset(0 - r, 0), r, column);
    var k :| 0 <= k < |Quarter(r)| && Quarter(r)[k].x == column;
    QuarterOnArc(r);
    OffsetWithin(Quarter(r)[k], r);
    ColumnSides(r, cx, cy, k, dx);
    var e: nat := Quarter(r)[k].y;
    assert AboveAndBelow(r, cx, cy, dx, e);
  }

  lemma ColumnSides(r: nat, cx: nat, cy: nat, k: nat, dx: int)
    requires k < |Quarter(r)| && (dx == Quarter(r)[k].x || dx == -Quarter(r)[k].x) && Quarter(r)[k].y >= 0
    ensures AboveAndBelow(r, cx, cy, dx, Quarter(r)[k].y)
  {
    hide Hit, Quarter;
    FourImages(Quarter(r), cx, cy, k);
    var p := Quarter(r)[k];
    assert cx + -p.x == cx - p.x;
  }

  // Wrapped coordinates -------------------------------------------------------------------------

  /** No coordinate of the circle wraps back onto the screen. It may leave the screen on any side. */
  predicate Unwrapped(r: nat, cx: nat, cy: nat) {
    r <= cx + 128 && cx + r < 256 && r <= cy + 192 && cy + r < 256
  }

  /** The distance from the centre, squared, is that of a point within half a pixel of the circle. */
  predicate Close(r: nat, dx: int, dy: int) {
    && (r > 0 ==> (2 * r - 1) * (2 * r - 1) <= 4 * (dx * dx + dy * dy))
    && 4 * (dx * dx + dy * dy) <= (2 * r + 1) * (2 * r + 1)
  }

  /** Every pixel of the screen that a circle touches without wrapping is within half a pixel of it. */
  lemma OnScreenAccuracy(r: nat, cx: nat, cy: nat, x: nat, y: nat)
    requires Unwrapped(r, cx, cy) && x < WIDTH && y < HEIGHT
    requires Hit(Quarter(r), cx, cy, x, y)
    ensures Close(r, x - cx, y - cy)
  {
    hide OnArc, Mirrored, Arc, Quarter, Unwrapped, Close;
    QuarterOnArc(r);
    var path := Quarter(r);
    var k :| 0 <= k < |path| && Mirrored(path[k], cx, cy, x, y);
    NoWrap(path[k], r, cx, cy, x, y);
    CloseOnArc(path[k], r, x - cx, y - cy);
  }

  lemma QuarterOnArc(r: nat)
    ensures forall k :: 0 <= k < |Quarter(r)| ==> OnArc(Quarter(r)[k], r)
  {
    hide OnArc, Arc;
    StartOnArc(r);
    ArcShape(Offset(0 - r, 0), r);
  }

  lemma CloseOnArc(p: Offset, r: nat, dx: int, dy: int)
    requires OnArc(p, r) && (dx == p.x || dx == -p.x) && (dy == p.y || dy == -p.y)
    ensures Close(r, dx, dy)
  {
    hide OnArc;
    SameSquare(dx, p.x);
    SameSquare(dy, p.y);
    if r > 0 {
      WithinHalfAPixel(p, r);
    } else {
      Centre(p);
    }
  }

  lemma Centre(p: Offset)
    requires OnArc(p, 0)
    ensures p == Offset(0, 0)
  {
  }

  lemma NoWrap(p: Offset, r: nat, cx: nat, cy: nat, x: nat, y: nat)
    requires Unwrapped(r, cx, cy) && OnArc(p, r) && Mirrored(p, cx, cy, x, y) && x < WIDTH && y < HEIGHT
    ensures (x - cx == p.x || x - cx == -p.x) && (y - cy == p.y || y - cy == -p.y)
  {
    hide Excess, Max, Coordinate;
    Wraps(cx - p.x);
    Wraps(cx + p.x);
    Wraps(cy - p.y);
    Wraps(cy + p.y);
  }

  lemma Wraps(n: int)
    ensures 0 <= n < 256 ==> Coordinate(n) == n
    ensures -256 <= n < 0 ==> Coordinate(n) == n + 256
    ensures 256 <= n < 512 ==> Coordinate(n) == n - 256
  {
  }

  lemma SameSquare(a: int, b: int)
    requires a == b || a == -b
    ensures a * a == b * b
  {
  }

  /** The end of a wrapped axis: a pixel of the screen that the circle touches, and that is not on it. */
  function Stray(r: nat, cx: nat, cy: nat): (int, int) {
    if r > cx + 128 then (cx - r + 256, cy)
    else if cx + r >= 256 then (cx + r - 256, cy)
    else if r > cy + 192 then (cx, cy - r + 256)
    else (cx, cy + r - 256)
  }

  lemma StrayIsHit(r: nat, cx: nat, cy: nat)
    requires cx < WIDTH && cy < HEIGHT && r < 256 && !Unwrapped(r, cx, cy)
    ensures var (x, y) := Stray(r, cx, cy);
      0 <= x < WIDTH && 0 <= y < HEIGHT && Hit(Quarter(r), cx, cy, x, y) && !Close(r, x - cx, y - cy)
  {
    hide Quarter, Coordinate;
    var (x, y) := Stray(r, cx, cy);
    var path := Quarter(r);
    CircleAccuracy(r);
    Wraps(cx - r);
    Wraps(cx + r);
    Wraps(cy - r);
    Wraps(cy + r);
    Wraps(cx);
    Wraps(cy);
    assert Mirrored(path[if y == cy then 0 else |path| - 1], cx, cy, x, y);
    FarOff(r, if y == cy then x - cx else y - cy);
  }

  lemma FarOff(r: nat, d: int)
    requires 129 <= r < 256 && (d == 256 - r || d == r - 256)
    ensures !Close(r, d, 0) && !Close(r, 0, d)
  {
    SameSquare(d, 256 - r);
    Doubled(r);
    assert 4 * ((256 - r) * (256 - r)) == 4 * (r * r) - 4 * 512 * r + 4 * 65536;
  }

  /** For every centre on the screen and every radius: all pixels that the circle touches on the screen are
      within half a pixel of it if and only if none of its axes wraps back onto the screen. */
  lemma OnScreenExactly(r: nat, cx: nat, cy: nat)
    requires cx < WIDTH && cy < HEIGHT && r < 256
    ensures Unwrapped(r, cx, cy) <==>
      forall x: nat, y: nat :: x < WIDTH && y < HEIGHT && Hit(Quarter(r), cx, cy, x, y) ==> Close(r, x - cx, y - cy)
  {
    hide Hit, Quarter, Close, Unwrapped;
    if Unwrapped(r, cx, cy) {
      forall x: nat, y: nat | x < WIDTH && y < HEIGHT && Hit(Quarter(r), cx, cy, x, y)
        ensures Close(r, x - cx, y - cy)
      {
        OnScreenAccuracy(r, cx, cy, x, y);
      }
    } else {
      StrayIsHit(r, cx, cy);
    }
  }

  /** A circle of radius 200 around (100, 0) touches (44, 0), 56 pixels from its centre. */
  lemma WrappedCircle()
    ensures Hit(Quarter(200), 100, 0, 44, 0) && !Close(200, 44 - 100, 0)
  {
    hide Quarter, Arc, Hit, Close;
    StrayIsHit(200, 100, 0);
  }
}

/** Drawing pixels and lines into a framebuffer. */
module Line {

  const MAX_POINTS: nat := 1000

  datatype Point = Point(x: int, y: int)

  function Abs(v: int): nat {
    if v < 0 then -v else v
  }

  function Sign(from: int, to: int): int {
    if from < to then 1 else -1
  }

  function Max(a: nat, b: nat): nat {
    if a > b then a else b
  }

  function Min(a: nat, b: nat): nat {
    if a < b then a else b
  }

  /** Steps along the minor axis after `k` steps along the major one: `m * k / M`, rounded to the
      nearest, halves up. */
  function Minor(k: nat, M: nat, m: nat): nat {
    if M == 0 then 0 else (2 * (m * k) + M) / (2 * M)
  }

  /** Steps along x and y after `k` moves from one end of a line that is `A` wide and `B` high. */
  function StepsX(k: nat, A: nat, B: nat): nat {
    if A >= B then k else Minor(k, B, A)
  }

  function StepsY(k: nat, A: nat, B: nat): nat {
    if A >= B then Minor(k, A, B) else k
  }

  /** Point `k` of the line from `p` to `q`. */
  function PointAt(p: Point, q: Point, k: nat): Point {
    var A, B := Abs(q.x - p.x), Abs(q.y - p.y);
    Point(p.x + Sign(p.x, q.x) * StepsX(k, A, B), p.y + Sign(p.y, q.y) * StepsY(k, A, B))
  }

  /** Points drawn: the whole line, unless it is longer than 999 moves. */
  function PointCount(p: Point, q: Point): nat {
    Min(Max(Abs(q.x - p.x), Abs(q.y - p.y)) + 1, MAX_POINTS)
  }

  // ---- Exactness ----

  /** The rounded quotient is the one number within half a divisor. */
  lemma MinorIs(k: nat, M: nat, m: nat, q: int)
    requires M > 0 && 2 * (M * q) - M <= 2 * (m * k) < 2 * (M * q) + M
    ensures Minor(k, M, m) == q
  {
    var n, d := 2 * (m * k) + M, 2 * M;
    assert d * q == 2 * (M * q);
    DivIs(n, d, q);
  }

  lemma DivIs(n: int, d: int, q: int)
    requires d > 0 && d * q <= n < d * q + d
    ensures n / d == q
  {
    var r := n / d;
    assert d * r <= n < d * r + d;
    if r < q {
      MulLess(d, r, q);
    } else if r > q {
      MulLess(d, q, r);
    }
  }

  lemma Positive(d: int, e: int)
    requires d > 0 && e >= 0
    ensures d * e >= 0
  {
  }

  lemma MulLess(d: int, a: int, b: int)
    requires d > 0 && a < b
    ensures d * a + d <= d * b
  {
    var e := b - a - 1;
    Positive(d, e);
    assert b == a + 1 + e;
    assert d * b == d * a + d * 1 + d * e;
  }

  lemma MinorWithin(k: nat, M: nat, m: nat)
    requires M > 0
    ensures var q := Minor(k, M, m); 2 * (M * q) - M <= 2 * (m * k) < 2 * (M * q) + M
  {
    var n, d := 2 * (m * k) + M, 2 * M;
    var q := n / d;
    assert n == d * q + n % d;
    assert d * q == 2 * (M * q);
  }

  /** Every point of the line is within half a pixel of the ideal line. */
  lemma HalfPixel(k: nat, A: nat, B: nat)
    ensures 2 * Abs(A * StepsY(k, A, B) - B * StepsX(k, A, B)) <= Max(A, B)
  {
    if A >= B {
      if A > 0 {
        MinorWithin(k, A, B);
      }
    } else {
      MinorWithin(k, B, A);
    }
  }

  /** The line reaches its target after as many moves as it is long. */
  lemma ReachesTarget(A: nat, B: nat)
    ensures StepsX(Max(A, B), A, B) == A && StepsY(Max(A, B), A, B) == B
  {
    if A >= B {
      if A > 0 {
        MinorIs(A, A, B, B);
      }
    } else {
      MinorIs(B, B, A, A);
    }
  }

  lemma StartsAtOrigin(A: nat, B: nat)
    ensures StepsX(0, A, B) == 0 && StepsY(0, A, B) == 0
  {
    if A > 0 && A >= B {
      MinorIs(0, A, B, 0);
    } else if B > 0 {
      MinorIs(0, B, A, 0);
    }
  }

  /** The loop's error term at point `k`. */
  function ErrorAt(k: nat, A: nat, B: nat): int {
    A - B - B * StepsX(k, A, B) + A * StepsY(k, A, B)
  }

  /** One move of the error-driven loop: with the error of point `k` its two tests move exactly to
      point `k + 1`. */
  lemma MoveIs(k: nat, A: nat, B: nat)
    requires k < Max(A, B)
    ensures var e2 := 2 * ErrorAt(k, A, B);
            var right, down := e2 + B >= 0, e2 <= A;
            && StepsX(k + 1, A, B) == StepsX(k, A, B) + (if right then 1 else 0)
            && StepsY(k + 1, A, B) == StepsY(k, A, B) + (if down then 1 else 0)
            && ErrorAt(k + 1, A, B) == ErrorAt(k, A, B) + (if right then -(B as int) else 0) + (if down then A else 0)
  {
    MoveSteps(k, A, B);
    hide StepsX, StepsY;
    Distribute(B, StepsX(k, A, B));
    Distribute(A, StepsY(k, A, B));
  }

  lemma Distribute(c: int, n: int)
    ensures c * (n + 1) == c * n + c
  {
  }

  lemma MoveSteps(k: nat, A: nat, B: nat)
    requires k < Max(A, B)
    ensures var e2 := 2 * ErrorAt(k, A, B);
            && StepsX(k + 1, A, B) == StepsX(k, A, B) + (if e2 + B >= 0 then 1 else 0)
            && StepsY(k + 1, A, B) == StepsY(k, A, B) + (if e2 <= A then 1 else 0)
  {
    if A >= B {
      MinorWithin(k, A, B);
      NextMinor(k, A, B);
    } else {
      MinorWithin(k, B, A);
      NextMinor(k, B, A);
    }
  }

  /** The same on points, and where the line ends. */
  lemma PointMoves(p: Point, q: Point, k: nat)
    requires k < Max(Abs(q.x - p.x), Abs(q.y - p.y))
    ensures var A, B := Abs(q.x - p.x), Abs(q.y - p.y);
            var e2 := 2 * ErrorAt(k, A, B);
            PointAt(p, q, k + 1) == Point(PointAt(p, q, k).x + (if e2 + B >= 0 then Sign(p.x, q.x) else 0),
                                          PointAt(p, q, k).y + (if e2 <= A then Sign(p.y, q.y) else 0))
  {
    MoveIs(k, Abs(q.x - p.x), Abs(q.y - p.y));
    hide StepsX, StepsY, ErrorAt, Abs;
  }

  lemma EndsAt(p: Point, q: Point, k: nat)
    requires k <= Max(Abs(q.x - p.x), Abs(q.y - p.y))
    ensures PointAt(p, q, k) == q <==> k == Max(Abs(q.x - p.x), Abs(q.y - p.y))
  {
    ReachesTarget(Abs(q.x - p.x), Abs(q.y - p.y));
  }

  lemma StartsAt(p: Point, q: Point)
    ensures PointAt(p, q, 0) == p && ErrorAt(0, Abs(q.x - p.x), Abs(q.y - p.y)) == Abs(q.x - p.x) - Abs(q.y - p.y)
  {
    StartsAtOrigin(Abs(q.x - p.x), Abs(q.y - p.y));
  }

  lemma NextMinor(k: nat, M: nat, m: nat)
    requires M > 0 && m <= M
    ensures var q := Minor(k, M, m);
            Minor(k + 1, M, m) == if 2 * (m * k) + 2 * m >= 2 * (M * q) + M then q + 1 else q
  {
    var q := Minor(k, M, m);
    MinorWithin(k, M, m);
    assert m * (k + 1) == m * k + m;
    if 2 * (m * k) + 2 * m >= 2 * (M * q) + M {
      assert M * (q + 1) == M * q + M;
      MinorIs(k + 1, M, m, q + 1);
    } else {
      MinorIs(k + 1, M, m, q);
    }
  }

  // ---- The framebuffer ----

  type Color = x: int | 0 <= x < 0x1_0000_0000

  /** The pixels of a frame with one pixel set, if it lies in the frame. */
  function Painted(frame: seq<Color>, width: nat, height: nat, at: Point, color: Color): (r: seq<Color>)
    requires |frame| == width * height
    ensures |r| == |frame|
  {
    if 0 <= at.x < width && 0 <= at.y < height then
      IndexInside(width, height, at.x, at.y);
      frame[at.x + at.y * width := color]
    else frame
  }

  lemma IndexInside(width: nat, height: nat, x: nat, y: nat)
    requires x < width && y < height
    ensures x + y * width < width * height
  {
    assert (y + 1) * width <= height * width by { Scale(y + 1, height, width); }
    assert (y + 1) * width == y * width + width;
  }

  lemma Scale(a: nat, b: nat, w: nat)
    requires a <= b
    ensures a * w <= b * w
  {
  }

  /** The frame after the first `n` points of a line. */
  function LineDrawn(frame: seq<Color>, width: nat, height: nat, p: Point, q: Point, n: nat, color: Color)
    : (r: seq<Color>)
    requires |frame| == width * height
    ensures |r| == |frame|
  {
    if n == 0 then frame
    else Painted(LineDrawn(frame, width, height, p, q, n - 1, color), width, height, PointAt(p, q, n - 1), color)
  }

  /** A pixel of the frame has the line's colour exactly where one of the points is; the others are
      as they were. */
  lemma {:induction false} DrawnExactly(frame: seq<Color>, width: nat, height: nat, p: Point, q: Point, n: nat,
                                        color: Color, x: nat, y: nat)
    requires |frame| == width * height && x < width && y < height
    ensures x + y * width < |frame|
    ensures LineDrawn(frame, width, height, p, q, n, color)[x + y * width] ==
            if exists k :: 0 <= k < n && PointAt(p, q, k) == Point(x, y) then color else frame[x + y * width]
  {
    hide PointAt, Painted;
    IndexInside(width, height, x, y);
    if n > 0 {
      DrawnExactly(frame, width, height, p, q, n - 1, color, x, y);
      PaintedAt(LineDrawn(frame, width, height, p, q, n - 1, color), width, height, PointAt(p, q, n - 1), color, x, y);
    }
  }

  lemma PaintedAt(frame: seq<Color>, width: nat, height: nat, at: Point, color: Color, x: nat, y: nat)
    requires |frame| == width * height && x < width && y < height
    ensures x + y * width < |frame|
    ensures Painted(frame, width, height, at, color)[x + y * width] ==
            if at == Point(x, y) then color else frame[x + y * width]
  {
    IndexInside(width, height, x, y);
    if 0 <= at.x < width && 0 <= at.y < height {
      IndexInside(width, height, at.x, at.y);
      IndexInjective(width, x, y, at.x, at.y);
    }
  }

  lemma IndexInjective(width: nat, x: nat, y: nat, u: nat, v: nat)
    requires x < width && u < width
    ensures x + y * width == u + v * width <==> x == u && y == v
  {
    if x + y * width == u + v * width {
      if y < v {
        MulLess(width, y, v);
      } else if v < y {
        MulLess(width, v, y);
      }
    }
  }

  class GraphicsContext {
    const framebuffer: array<Color>
    const width: nat
    const height: nat

    constructor (framebuffer: array<Color>, width: nat, height: nat)
      requires framebuffer.Length == width * height
      ensures Valid() && this.framebuffer == framebuffer && this.width == width && this.height == height
    {
      this.framebuffer, this.width, this.height := framebuffer, width, height;
    }

    ghost predicate Valid() {
      framebuffer.Length == width * height
    }

    /** Sets one pixel; points outside the frame are ignored. */
    method Pixel(x: int, y: int, color: Color)
      requires Valid()
      modifies framebuffer
      ensures framebuffer[..] == Painted(old(framebuffer[..]), width, height, Point(x, y), color)
    {
      if x < 0 { return; }
      if y < 0 { return; }
      if x >= width { return; }
      if y >= height { return; }
      IndexInside(width, height, x, y);
      framebuffer[x + y * width] := color;
    }

    /** Draws the line from `p` to `q`; of a line longer than 999 moves only the first 1000 points. */
    method DrawLine(p: Point, q: Point, color: Color) returns (ghost last: Point)
      requires Valid() && Abs(q.x - p.x) + Abs(q.y - p.y) < 0x4000_0000
      modifies framebuffer
      ensures framebuffer[..] == LineDrawn(old(framebuffer[..]), width, height, p, q, PointCount(p, q), color)
      ensures last == PointAt(p, q, PointCount(p, q) - 1)
      ensures last == q <==> Max(Abs(q.x - p.x), Abs(q.y - p.y)) < MAX_POINTS
    {
      hide PointAt, ErrorAt, StepsX, StepsY, Abs, Sign, Painted, Max;
      ghost var A, B := Abs(q.x - p.x), Abs(q.y - p.y);
      ghost var before := framebuffer[..];
      var dx: int, sx := Abs(q.x - p.x), Sign(p.x, q.x);
      var dy, sy := -(Abs(q.y - p.y) as int), Sign(p.y, q.y);
      var err := dx + dy;
      var x, y := p.x, p.y;
      StartsAt(p, q);
      last := p;
      var i := 0;
      while i < MAX_POINTS
        invariant 0 <= i <= MAX_POINTS && i <= Max(A, B)
        invariant Point(x, y) == PointAt(p, q, i) && err == ErrorAt(i, A, B)
        invariant framebuffer[..] == LineDrawn(before, width, height, p, q, i, color)
        invariant i > 0 ==> last == PointAt(p, q, i - 1) != q
      {
        Pixel(x, y, color);
        last := Point(x, y);
        EndsAt(p, q, i);
        if x == q.x && y == q.y {
          break;
        }
        var e2 := 2 * err;
        PointMoves(p, q, i);
        MoveIs(i, A, B);
        if e2 >= dy {
          err := err + dy;
          x := x + sx;
        }
        if e2 <= dx {
          err := err + dx;
          y := y + sy;
        }
        i := i + 1;
      }
    }
  }
}

/** driver/graphy.c: a line of pixels by additions only. */
module Bresenham {
  import opened Basics

  datatype Point = Point(x: int, y: int)

  /** The point plotted in the four cases of slope. */
  function Plot(mod: nat, x1: int, y1: int, x: int, y: int): Point
    requires 1 <= mod <= 4
  {
    match mod
    case 1 => Point(x, y)
    case 2 => Point(y, x)
    case 3 => Point(x, 2 * y1 - y)
    case _ => Point(y, 2 * x1 - x)
  }

  /** The nearest row to the ideal line, half a pixel rounded up. */
  function Row(dx: int, dy: int, k: nat): int
    requires dx > 0
  {
    (2 * dy * k + dx) / (2 * dx)
  }

  lemma RowIs(dx: int, dy: int, k: nat, r: int)
    requires dx > 0 && -dx <= 2 * dy * k - 2 * dx * r < dx
    ensures r == Row(dx, dy, k)
  {
    var n, q := 2 * dy * k + dx, Row(dx, dy, k);
    assert n == q * (2 * dx) + n % (2 * dx);
    Times(r + 1, q, 2 * dx);
    Times(q + 1, r, 2 * dx);
  }

  /** The loop runs along x; every point is on the row nearest to the ideal line. */
  method BresenhamLine(x1: int, y1: int, x2: int, y2: int, mod: nat) returns (points: seq<Point>)
    requires 1 <= mod <= 4 && x1 <= x2 && 0 <= y2 - y1 <= x2 - x1
    ensures |points| == x2 - x1
    ensures forall k :: 0 <= k < |points| ==> points[k] == Plot(mod, x1, y1, x1 + k, y1 + Row(x2 - x1, y2 - y1, k))
  {
    var dx, dy := x2 - x1, y2 - y1;
    var x, y, p := x1, y1, 2 * dy - dx;
    points := [];
    ghost var k := 0;
    while x < x2
      invariant 0 <= k && x == x1 + k && x <= x2 && |points| == k
      invariant p == 2 * dy * k - 2 * dx * (y - y1) + 2 * dy - dx
      invariant dx > 0 ==> -dx <= 2 * dy * k - 2 * dx * (y - y1) < dx
      invariant dx > 0 ==> forall j :: 0 <= j < k ==> points[j] == Plot(mod, x1, y1, x1 + j, y1 + Row(dx, dy, j))
    {
      RowIs(dx, dy, k, y - y1);
      points := points + [Plot(mod, x1, y1, x, y)];
      Step(dx, dy, k, y - y1);
      if p >= 0 {
        y := y + 1;
        p := p + 2 * (dy - dx);
      } else {
        p := p + 2 * dy;
      }
      x, k := x + 1, k + 1;
    }
  }

  lemma Step(dx: int, dy: int, k: nat, r: int)
    ensures 2 * dy * (k + 1) == 2 * dy * k + 2 * dy && 2 * dx * (r + 1) == 2 * dx * r + 2 * dx
  {
  }

  /** Twice the distance from the ideal line, times its length along the major axis. */
  function Off(a: Point, b: Point, p: Point): int {
    2 * ((b.y - a.y) * (p.x - a.x) - (b.x - a.x) * (p.y - a.y))
  }

  /** The ends in the order in which the line is drawn. */
  function Ends(a: Point, b: Point): (Point, Point) {
    if a.x > b.x then (b, a) else (a, b)
  }

  function Major(a: Point, b: Point): nat {
    if Abs(b.x - a.x) > Abs(b.y - a.y) then Abs(b.x - a.x) else Abs(b.y - a.y)
  }

  lemma RowNear(dx: int, dy: int, k: nat)
    requires dx > 0
    ensures -dx <= 2 * (dy * k - dx * Row(dx, dy, k)) < dx
  {
    var n, q := 2 * dy * k + dx, Row(dx, dy, k);
    assert n == q * (2 * dx) + n % (2 * dx);
    Twice(dy, k, dx, q);
  }

  lemma Twice(dy: int, k: int, dx: int, q: int)
    ensures 2 * dy * k == 2 * (dy * k) && q * (2 * dx) == 2 * (dx * q)
  {
  }

  /** driver/graphy.c `drawLine`: from the left end on, one pixel for every step along the major axis
      and none for the far end, each at most half a pixel off along the minor axis. */
  method DrawLine(a: Point, b: Point) returns (points: seq<Point>)
    ensures var (s, e) := Ends(a, b);
      && |points| == Major(a, b)
      && (forall k :: 0 <= k < |points| ==> Abs(Off(s, e, points[k])) <= Major(a, b))
      && (forall k :: 0 <= k < |points| ==>
            if Abs(b.x - a.x) > Abs(b.y - a.y) then points[k].x == s.x + k
            else points[k].y == (if s.y < e.y then s.y + k else s.y - k))
  {
    var x1, y1, x2, y2 := a.x, a.y, b.x, b.y;
    if x1 > x2 {
      x1, x2 := x2, x1;
      y1, y2 := y2, y1;
    }
    ghost var s, e := Point(x1, y1), Point(x2, y2);
    ghost var dx, dy: int;
    if y1 < y2 {
      if x2 - x1 > y2 - y1 {
        points := BresenhamLine(x1, y1, x2, y2, 1);
        dx, dy := x2 - x1, y2 - y1;
      } else {
        points := BresenhamLine(y1, x1, y2, x2, 2);
        dx, dy := y2 - y1, x2 - x1;
      }
    } else {
      if x2 - x1 > y1 - y2 {
        points := BresenhamLine(x1, y1, x2, 2 * y1 - y2, 3);
        dx, dy := x2 - x1, y1 - y2;
      } else {
        points := BresenhamLine(y1, x1, 2 * y1 - y2, x2, 4);
        dx, dy := y1 - y2, x2 - x1;
      }
    }
    forall k | 0 <= k < |points|
      ensures Abs(Off(s, e, points[k])) <= dx
    {
      RowNear(dx, dy, k);
      OffIs(s, e, points[k], dx, dy, k, Row(dx, dy, k));
    }
  }

  /** The four cases are reflections of one. */
  lemma OffIs(s: Point, e: Point, p: Point, dx: int, dy: int, k: int, r: int)
    requires (dx == e.x - s.x && dy == Abs(e.y - s.y) && p.x == s.x + k && p.y == (if s.y < e.y then s.y + r else s.y - r))
          || (dx == Abs(e.y - s.y) && dy == e.x - s.x && p.x == s.x + r && p.y == (if s.y < e.y then s.y + k else s.y - k))
    ensures Abs(Off(s, e, p)) == Abs(2 * (dy * k - dx * r))
  {
    var a, b, u, v := e.x - s.x, e.y - s.y, p.x - s.x, p.y - s.y;
    assert Off(s, e, p) == 2 * (b * u - a * v);
    if s.y >= e.y { NegNeg(b, u, a, v); }
  }

  lemma NegNeg(b: int, u: int, a: int, v: int)
    ensures (-b) * u == -(b * u) && a * (-v) == -(a * v)
  {
  }
}

/** `draw_line`: a line drawn with integer error terms, in every octant. */
module Line {
  import opened Bytes

  predicate IsInt32(n: int) { 0 - I32 <= n < I32 }

  function Abs(n: int): nat { if n < 0 then -n else n }
  function Max(a: int, b: int): int { if a < b then b else a }

  /** A drawn point. */
  datatype Point = Point(x: int, y: int)

  // After `along` moves on the major and `across` moves on the minor axis the point is at most half
  // a unit off the ideal line: twice the distance, scaled by the length of the major axis, is at
  // most that length. Exactly half a unit off, it is behind the line.
  ghost predicate NearIdeal(along: int, across: int, major: int, minor: int) {
    var off := 2 * (across * major - along * minor);
    0 - major <= off && (off < major || major == 0)
  }

  predicate Between(x: int, a: int, b: int) {
    a <= x <= b || b <= x <= a
  }

  // Point `k` of the line from (x0, y0) to (x1, y1): exactly `k` steps along the major axis, within
  // half a unit of the ideal line, and between the two ends.
  ghost predicate OnLine(p: Point, k: int, x0: int, y0: int, x1: int, y1: int) {
    var dx, dy := Abs(x1 - x0), Abs(y1 - y0);
    var i, j := Abs(p.x - x0), Abs(p.y - y0);
    && Between(p.x, x0, x1) && Between(p.y, y0, y1)
    && (if dx > dy then i == k && NearIdeal(i, j, dx, dy) else j == k && NearIdeal(j, i, dy, dx))
  }

  ghost predicate AllOnLine(points: seq<Point>, x0: int, y0: int, x1: int, y1: int) {
    forall k :: 0 <= k < |points| ==> OnLine(points[k], k, x0, y0, x1, y1)
  }

  // There is only one such point.
  lemma OnLineUnique(p: Point, q: Point, k: int, x0: int, y0: int, x1: int, y1: int)
    requires OnLine(p, k, x0, y0, x1, y1) && OnLine(q, k, x0, y0, x1, y1)
    ensures p == q
  {
    var dx, dy := Abs(x1 - x0), Abs(y1 - y0);
    if dx > dy {
      OneAcross(k, Abs(p.y - y0), Abs(q.y - y0), dx, dy);
    } else {
      OneAcross(k, Abs(p.x - x0), Abs(q.x - x0), dy, dx);
    }
  }

  lemma OneAcross(along: int, a: int, b: int, major: int, minor: int)
    requires NearIdeal(along, a, major, minor) && NearIdeal(along, b, major, minor)
    ensures major > 0 ==> a == b
  {
    assert a * major - b * major == (a - b) * major;
    if major > 0 && a > b {
      Product(1, a - b, major);
    } else if major > 0 && a < b {
      Product(a - b, -1, major);
    }
  }

  lemma NothingDrawn(x0: int, y0: int, x1: int, y1: int)
    ensures AllOnLine([], x0, y0, x1, y1)
  {
  }

  lemma OneMore(points: seq<Point>, p: Point, x0: int, y0: int, x1: int, y1: int)
    requires AllOnLine(points, x0, y0, x1, y1) && OnLine(p, |points|, x0, y0, x1, y1)
    ensures AllOnLine(points + [p], x0, y0, x1, y1)
  {
    hide OnLine;
  }

  method AbsInt(n: int) returns (r: int)
    requires 0 - I32 < n < I32
    ensures r == Abs(n)
  {
    if n < 0 {
      return -n;
    }
    return n;
  }

  // The error term the code starts with; division of a negative int truncates.
  function FirstError(dx: int, dy: int): int
    requires 0 <= dx && 0 <= dy
  {
    if dx > dy then dx / 2 else 0 - dy / 2
  }

  // The error term that belongs to `i` moves in x and `j` moves in y.
  ghost function ErrorAt(i: int, j: int, dx: int, dy: int): int
    requires 0 <= dx && 0 <= dy
  {
    FirstError(dx, dy) - i * dy + j * dx
  }

  // The band the error term never leaves.
  predicate InBand(err: int, dx: int, dy: int) {
    if dx > dy then 0 <= err < dx else 0 - dy < err <= 0
  }

  // Inside the band the minor axis is near the ideal line, and keeps pace with the major one.
  lemma BandIsNear(i: int, j: int, dx: int, dy: int)
    requires 0 <= dx && 0 <= dy && 0 < dx + dy && InBand(ErrorAt(i, j, dx, dy), dx, dy)
    ensures if dx > dy then NearIdeal(i, j, dx, dy) else NearIdeal(j, i, dy, dx)
  {
  }

  lemma MinorInRange(a: int, b: int, major: int, minor: int, err: int)
    requires 0 <= minor <= major && 0 < major && 0 <= a <= major
    requires 0 - major <= 2 * err <= major && b * major == a * minor + err
    ensures 0 <= b <= minor
    ensures a == major ==> b == minor
  {
    if b < 0 {
      Product(b, -1, major);
      Product(0, a, minor);
    } else if b > minor {
      Product(minor + 1, b, major);
      Product(a, major, minor);
    } else if a == major && b < minor {
      Product(b, minor - 1, major);
    }
  }

  lemma Product(x: int, y: int, m: int)
    requires x <= y && 0 <= m
    ensures x * m <= y * m
  {
  }

  // With the error term in its band, neither axis is left behind, and both ends come together.
  lemma Positions(i: int, j: int, dx: int, dy: int)
    requires 0 <= dx && 0 <= dy && 0 < dx + dy && InBand(ErrorAt(i, j, dx, dy), dx, dy)
    requires if dx > dy then 0 <= i <= dx else 0 <= j <= dy
    ensures 0 <= i <= dx && 0 <= j <= dy
    ensures (if dx > dy then i == dx else j == dy) ==> i == dx && j == dy
  {
    if dx > dy {
      MinorInRange(i, j, dx, dy, ErrorAt(i, j, dx, dy) - FirstError(dx, dy));
    } else {
      MinorInRange(j, i, dy, dx, FirstError(dx, dy) - ErrorAt(i, j, dx, dy));
    }
  }

  // One round: which moves are made, and the error term after them.
  lemma RoundKeepsBand(i: int, j: int, dx: int, dy: int)
    requires 0 <= dx && 0 <= dy && 0 < dx + dy && InBand(ErrorAt(i, j, dx, dy), dx, dy)
    ensures
      var e2 := ErrorAt(i, j, dx, dy);
      var i' := if e2 > 0 - dx then i + 1 else i;
      var j' := if e2 < dy then j + 1 else j;
      var err1 := if e2 > 0 - dx then e2 - dy else e2;
      var err2 := if e2 < dy then err1 + dx else err1;
      && (if dx > dy then i' == i + 1 else j' == j + 1)
      && err2 == ErrorAt(i', j', dx, dy) && InBand(err2, dx, dy)
      && (if dx > dy then 0 - dy <= err1 < dx else 0 - dx - dy < err1 <= 0)
  {
    assert (i + 1) * dy == i * dy + dy;
    assert (j + 1) * dx == j * dx + dx;
  }

  // The error term fits an int in every round: a line longer in y goes down to the negative sum of
  // both distances before it comes up again.
  predicate NoOverflow(dx: int, dy: int) {
    dx < I32 && dy < I32 && (dx <= dy ==> dx + dy <= I32 + 1)
  }

  // `n` moves from `a` towards `b`.
  function Moved(a: int, b: int, n: int): int {
    if b >= a then a + n else a - n
  }

  // The next coordinate stays between the ends, so the unsigned sum does not wrap around.
  lemma NextCoordinate(a: int, b: int, n: int)
    requires 0 <= a < U64 && 0 <= b < U64 && 0 <= n < Abs(b - a)
    ensures (Moved(a, b, n) + if b >= a then 1 else -1) % U64 == Moved(a, b, n + 1)
    ensures Moved(a, b, n) != b
  {
  }

  lemma MoveEnds(a: int, b: int)
    ensures Moved(a, b, 0) == a
    ensures forall n :: Moved(a, b, n) == b ==> n == Abs(b - a)
  {
  }

  lemma OnLineAt(i: int, j: int, k: int, x0: int, y0: int, x1: int, y1: int)
    requires
      var dx, dy := Abs(x1 - x0), Abs(y1 - y0);
      && 0 < dx + dy && InBand(ErrorAt(i, j, dx, dy), dx, dy)
      && 0 <= i <= dx && 0 <= j <= dy && k == (if dx > dy then i else j)
    ensures OnLine(Point(Moved(x0, x1, i), Moved(y0, y1, j)), k, x0, y0, x1, y1)
  {
    BandIsNear(i, j, Abs(x1 - x0), Abs(y1 - y0));
  }

  // `draw_line` draws one point per step along the longer axis, from the start to the end, each
  // within half a unit of the ideal line. No int overflows, and it always ends.
  method DrawLine(x0: int, y0: int, x1: int, y1: int) returns (points: seq<Point>)
    requires 0 <= x0 < U64 && 0 <= y0 < U64 && 0 <= x1 < U64 && 0 <= y1 < U64
    requires NoOverflow(Abs(x1 - x0), Abs(y1 - y0))
    ensures |points| == Max(Abs(x1 - x0), Abs(y1 - y0)) + 1
    ensures points[0] == Point(x0, y0) && points[|points| - 1] == Point(x1, y1)
    ensures AllOnLine(points, x0, y0, x1, y1)
  {
    NothingDrawn(x0, y0, x1, y1);
    hide AllOnLine, OnLine, InBand, ErrorAt, FirstError, Moved, ToInt32;
    MoveEnds(x0, x1);
    MoveEnds(y0, y1);
    var dx, dy := ToInt32((x1 - x0) % U64), ToInt32((y1 - y0) % U64);
    ExactDelta(x1 - x0);
    ExactDelta(y1 - y0);
    var sx, sy := if dx >= 0 then 1 else -1, if dy >= 0 then 1 else -1;
    dx := AbsInt(dx);
    dy := AbsInt(dy);
    var err := if dx > dy then dx / 2 else 0 - dy / 2;
    var startx, starty := x0, y0;
    points := [];
    ghost var i, j := 0, 0;
    StartInBand(dx, dy);
    while startx != x1 || starty != y1
      invariant 0 <= i <= dx && 0 <= j <= dy && startx == Moved(x0, x1, i) && starty == Moved(y0, y1, j)
      invariant err == ErrorAt(i, j, dx, dy) && (dx + dy > 0 ==> InBand(err, dx, dy))
      invariant |points| == (if dx > dy then i else j)
      invariant AllOnLine(points, x0, y0, x1, y1)
      invariant if points == [] then i == 0 && j == 0 else points[0] == Point(x0, y0)
      decreases dx + dy - i - j
    {
      Positions(i, j, dx, dy);
      NotAtEnd(i, j, x0, y0, x1, y1);
      OnLineAt(i, j, |points|, x0, y0, x1, y1);
      RoundKeepsBand(i, j, dx, dy);
      OneMore(points, Point(startx, starty), x0, y0, x1, y1);
      points := points + [Point(startx, starty)];
      var e2 := err;
      ghost var i', j' := if e2 > 0 - dx then i + 1 else i, if e2 < dy then j + 1 else j;
      Positions(i', j', dx, dy);
      if e2 > 0 - dx {
        NextCoordinate(x0, x1, i);
        err := err - dy;
        startx := (startx + sx) % U64;
      }
      assert IsInt32(err);
      if e2 < dy {
        NextCoordinate(y0, y1, j);
        err := err + dx;
        starty := (starty + sy) % U64;
      }
      assert IsInt32(err);
      i, j := i', j';
    }
    LastPoint(x0, y0, x1, y1);
    OneMore(points, Point(x1, y1), x0, y0, x1, y1);
    points := points + [Point(x1, y1)];
  }

  // Before the end there are moves left on the longer axis.
  lemma NotAtEnd(i: int, j: int, x0: int, y0: int, x1: int, y1: int)
    requires
      var dx, dy := Abs(x1 - x0), Abs(y1 - y0);
      && 0 <= i <= dx && 0 <= j <= dy
      && ((if dx > dy then i == dx else j == dy) ==> i == dx && j == dy)
    requires Moved(x0, x1, i) != x1 || Moved(y0, y1, j) != y1
    ensures if Abs(x1 - x0) > Abs(y1 - y0) then i < Abs(x1 - x0) else j < Abs(y1 - y0)
  {
  }

  lemma StartInBand(dx: int, dy: int)
    requires 0 <= dx && 0 <= dy
    ensures ErrorAt(0, 0, dx, dy) == FirstError(dx, dy) == (if dx > dy then dx / 2 else 0 - dy / 2)
    ensures dx + dy > 0 ==> InBand(FirstError(dx, dy), dx, dy)
  {
  }

  lemma LastPoint(x0: int, y0: int, x1: int, y1: int)
    ensures OnLine(Point(x1, y1), Max(Abs(x1 - x0), Abs(y1 - y0)), x0, y0, x1, y1)
  {
  }
}

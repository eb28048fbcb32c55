/** The circle of src/gpu.c: eight reflections of an arc that is followed with sums only. */
module Circle {
  import opened Words
  import opened Arith

  predicate IsU32(x: int) { 0 <= x < WORD32 }

  predicate IsI32(x: int) { -0x8000_0000 <= x < 0x8000_0000 }

  /** A value in unsigned 32-bit arithmetic. */
  function U32(x: int): int { x % WORD32 }

  datatype Pixel = Pixel(r: bv8, g: bv8, b: bv8, a: bv8)

  /** A place on the screen, or a point relative to the centre. */
  datatype Point = Point(x: int, y: int)

  datatype Screen = Screen(width: int, height: int) {
    predicate Valid() { IsU32(width) && IsU32(height) && width * height <= WORD32 }

    predicate Shows(p: Point) { 0 <= p.x < width && 0 <= p.y < height }

    function Offset(p: Point): int { p.y * width + p.x }
  }

  lemma OffsetInside(s: Screen, p: Point)
    requires s.Valid() && s.Shows(p)
    ensures 0 <= s.Offset(p) < s.width * s.height
  {
    MulLe(0, p.y, s.width);
    MulLe(p.y + 1, s.height, s.width);
    assert (p.y + 1) * s.width == p.y * s.width + s.width;
  }

  /** The offset tells the places on the screen apart. */
  lemma OffsetUnique(s: Screen, p: Point, q: Point)
    requires s.Shows(p) && s.Shows(q) && s.Offset(p) == s.Offset(q)
    ensures p == q
  {
    DivModUnique(s.Offset(p), s.width, p.y, p.x);
    DivModUnique(s.Offset(p), s.width, q.y, q.x);
  }

  // ---------------------------------------------------------------- what is drawn

  function Plot(s: Screen, buf: seq<Pixel>, p: Point, color: Pixel): (r: seq<Pixel>)
    ensures |r| == |buf|
  {
    if s.Shows(p) && 0 <= s.Offset(p) < |buf| then buf[s.Offset(p) := color] else buf
  }

  function PlotAll(s: Screen, buf: seq<Pixel>, ps: seq<Point>, color: Pixel): (r: seq<Pixel>)
    ensures |r| == |buf|
  {
    if ps == [] then buf else Plot(s, PlotAll(s, buf, ps[..|ps| - 1], color), ps[|ps| - 1], color)
  }

  /** The eight places of a point of the arc, in the order they are drawn. */
  function Reflections(c: Point, p: Point): (r: seq<Point>)
    ensures |r| == 8
  {
    [Point(U32(c.x + p.x), U32(c.y + p.y)), Point(U32(c.x + p.x), U32(c.y - p.y)),
     Point(U32(c.x - p.x), U32(c.y + p.y)), Point(U32(c.x - p.x), U32(c.y - p.y)),
     Point(U32(c.x + p.y), U32(c.y + p.x)), Point(U32(c.x + p.y), U32(c.y - p.x)),
     Point(U32(c.x - p.y), U32(c.y + p.x)), Point(U32(c.x - p.y), U32(c.y - p.x))]
  }

  function AllReflections(c: Point, arc: seq<Point>): seq<Point> {
    if arc == [] then [] else AllReflections(c, arc[..|arc| - 1]) + Reflections(c, arc[|arc| - 1])
  }

  /** A place has the colour exactly if it was drawn; every other place is as it was. */
  lemma {:induction false} PlotAllAt(s: Screen, buf: seq<Pixel>, ps: seq<Point>, color: Pixel, p: Point)
    requires s.Valid() && s.width * s.height <= |buf| && s.Shows(p)
    ensures 0 <= s.Offset(p) < |buf|
    ensures PlotAll(s, buf, ps, color)[s.Offset(p)] == if p in ps then color else buf[s.Offset(p)]
  {
    OffsetInside(s, p);
    if ps != [] {
      var n := |ps| - 1;
      PlotAllAt(s, buf, ps[..n], color, p);
      assert p in ps <==> p in ps[..n] || p == ps[n];
      if s.Shows(ps[n]) && s.Offset(ps[n]) == s.Offset(p) {
        OffsetUnique(s, p, ps[n]);
      }
    }
  }

  lemma {:induction false} PlotAllAppend(s: Screen, buf: seq<Pixel>, ps: seq<Point>, qs: seq<Point>, color: Pixel)
    ensures PlotAll(s, buf, ps + qs, color) == PlotAll(s, PlotAll(s, buf, ps, color), qs, color)
  {
    if qs == [] {
      assert ps + qs == ps;
    } else {
      var n := |qs| - 1;
      PlotAllAppend(s, buf, ps, qs[..n], color);
      assert (ps + qs)[..|ps + qs| - 1] == ps + qs[..n];
    }
  }

  // ---------------------------------------------------------------- the arc

  /** How far a point is from the circle, as a difference of squares. */
  function Error(p: Point, radius: int): int { p.x * p.x + p.y * p.y - radius * radius }

  /** The decision value: the errors of the two candidates for the next point, added up. */
  function Decision(p: Point, radius: int): int {
    Error(Point(p.x + 1, p.y), radius) + Error(Point(p.x + 1, p.y - 1), radius)
  }

  /** The next point: one to the right, and one down if the point to the right is the farther out. */
  function NextPoint(p: Point, radius: int): Point {
    if Decision(p, radius) < 0 then Point(p.x + 1, p.y) else Point(p.x + 1, p.y - 1)
  }

  /** Point `i` has abscissa `i`, each comes from the one before, and none is beyond the diagonal. */
  predicate IsArc(arc: seq<Point>, radius: int) {
    && (arc != [] ==> arc[0] == Point(0, radius))
    && (forall i :: 0 <= i < |arc| ==> arc[i].x == i && arc[i].x <= arc[i].y)
    && forall i :: 0 < i < |arc| ==> arc[i] == NextPoint(arc[i - 1], radius)
  }

  /** The arc goes on until the diagonal is passed. */
  predicate IsWholeArc(arc: seq<Point>, radius: int) {
    IsArc(arc, radius) && arc != []
    && NextPoint(arc[|arc| - 1], radius).x > NextPoint(arc[|arc| - 1], radius).y
  }

  predicate NearCircle(p: Point, radius: int) { -p.y <= Error(p, radius) <= p.y }

  /** The errors of the neighbours, without squares. */
  lemma ErrorSteps(p: Point, radius: int)
    ensures Error(Point(p.x + 1, p.y), radius) == Error(p, radius) + 2 * p.x + 1
    ensures Error(Point(p.x + 1, p.y - 1), radius) == Error(p, radius) + 2 * p.x + 1 - 2 * p.y + 1
    ensures Decision(p, radius) == 2 * Error(p, radius) + 4 * p.x + 3 - 2 * p.y
    ensures Decision(p, radius) ==
            2 * (p.x + 1) * (p.x + 1) + p.y * p.y + (p.y - 1) * (p.y - 1) - 2 * radius * radius
  {
    var x, y := p.x, p.y;
    assert (x + 1) * (x + 1) == x * x + 2 * x + 1;
    assert (y - 1) * (y - 1) == y * y - 2 * y + 1;
  }

  /** A next point before the diagonal is as near to the circle. */
  lemma NextIsNear(p: Point, radius: int)
    requires 0 <= p.x <= p.y && NearCircle(p, radius)
    ensures var q := NextPoint(p, radius); q.x <= q.y ==> NearCircle(q, radius)
  {
    hide Error, Decision;
    ErrorSteps(p, radius);
  }

  /** Every point of an arc misses the circle by at most its height. */
  lemma {:induction false} ArcIsNear(arc: seq<Point>, radius: int, i: nat)
    requires IsArc(arc, radius) && i < |arc|
    ensures NearCircle(arc[i], radius)
  {
    hide Error, Decision, NextPoint;
    if i == 0 {
      assert Error(Point(0, radius), radius) == 0 by { ErrorAtTop(radius); }
    } else {
      ArcIsNear(arc, radius, i - 1);
      NextIsNear(arc[i - 1], radius);
    }
  }

  lemma ErrorAtTop(radius: int)
    ensures Error(Point(0, radius), radius) == 0
  {
  }

  /** A point of the arc lies in the first octant of the circle, give or take. */
  lemma InOctant(p: Point, radius: int)
    requires 0 <= p.x <= p.y <= radius && NearCircle(p, radius)
    ensures 4 * p.x <= 3 * radius + 32
  {
    var x, y, r := p.x, p.y, radius;
    Square(x, y);
    assert 2 * (x * x) <= r * r + r;
    if 4 * x > 3 * r + 32 {
      Square(3 * r, 4 * x);
      assert (4 * x) * (4 * x) == 16 * (x * x);
      assert (3 * r + 33) * (3 * r + 33) == 9 * (r * r) + 198 * r + 1089;
      Square(3 * r + 33, 4 * x);
      assert false;
    }
  }

  lemma Square(x: int, y: int)
    requires 0 <= x <= y
    ensures x * x <= y * y
  {
    MulLe(x, y, x);
    MulLe(x, y, y);
  }

  /** The new decision value is the old one plus a sum, and nothing on the way leaves 32 bits. */
  lemma DecisionFits(p: Point, radius: int)
    requires 0 <= p.x <= p.y <= radius <= 0x2000_0000 && NearCircle(p, radius)
    ensures Decision(NextPoint(p, radius), radius) ==
            if Decision(p, radius) < 0 then Decision(p, radius) + 4 * p.x + 6
            else Decision(p, radius) + 4 * (p.x - p.y) + 10
    ensures Decision(p, radius) < 0 ==>
              && 0 <= 4 * p.x < 0x8000_0000
              && -0x8000_0000 <= Decision(p, radius) + 4 * p.x < Decision(p, radius) + 4 * p.x + 6 < 0x8000_0000
    ensures Decision(p, radius) >= 0 ==>
              && -0x8000_0000 <= 4 * (p.x - p.y) <= 0
              && -0x8000_0000 <= Decision(p, radius) + 4 * (p.x - p.y)
              && Decision(p, radius) + 4 * (p.x - p.y) + 10 < 0x8000_0000
  {
    hide Error, Decision;
    InOctant(p, radius);
    ErrorSteps(p, radius);
    ErrorSteps(NextPoint(p, radius), radius);
  }

  // ---------------------------------------------------------------- the code

  /** The unsigned product and sum of the index do not wrap on a screen that 32 bits can address. */
  lemma PixelIndex(s: Screen, p: Point)
    requires s.Valid() && s.Shows(p)
    ensures U32(U32(p.y * s.width) + p.x) == s.Offset(p) && 0 <= s.Offset(p) < s.width * s.height
  {
    OffsetInside(s, p);
    MulLe(0, p.y, s.width);
    var row := p.y * s.width;
    assert 0 <= row <= row + p.x < WORD32;
  }

  /** `gpu_draw_pixel`: nothing is written for a place off the screen. */
  method DrawPixel(s: Screen, frameBuf: array<Pixel>, x: int, y: int, color: Pixel)
    requires s.Valid() && s.width * s.height <= frameBuf.Length && IsU32(x) && IsU32(y)
    modifies frameBuf
    ensures frameBuf[..] == Plot(s, old(frameBuf[..]), Point(x, y), color)
  {
    if x >= s.width || y >= s.height {
      return;
    }
    hide U32;
    PixelIndex(s, Point(x, y));
    frameBuf[U32(U32(y * s.width) + x)] := color;
  }

  lemma PlotAllStep(s: Screen, buf: seq<Pixel>, ps: seq<Point>, k: nat, color: Pixel)
    requires k < |ps|
    ensures PlotAll(s, buf, ps[..k + 1], color) == Plot(s, PlotAll(s, buf, ps[..k], color), ps[k], color)
  {
    hide Plot;
    assert ps[..k + 1][..k] == ps[..k];
  }

  /** The eight pixels of one turn of the loop. */
  method DrawEight(s: Screen, frameBuf: array<Pixel>, c: Point, p: Point, color: Pixel)
    requires s.Valid() && s.width * s.height <= frameBuf.Length
    modifies frameBuf
    ensures frameBuf[..] == PlotAll(s, old(frameBuf[..]), Reflections(c, p), color)
  {
    hide Plot, PlotAll;
    ghost var was, ps := frameBuf[..], Reflections(c, p);
    assert PlotAll(s, was, ps[..0], color) == was by { PlotNone(s, was, color); }
    DrawPixel(s, frameBuf, U32(c.x + p.x), U32(c.y + p.y), color);
    PlotAllStep(s, was, ps, 0, color);
    DrawPixel(s, frameBuf, U32(c.x + p.x), U32(c.y - p.y), color);
    PlotAllStep(s, was, ps, 1, color);
    DrawPixel(s, frameBuf, U32(c.x - p.x), U32(c.y + p.y), color);
    PlotAllStep(s, was, ps, 2, color);
    DrawPixel(s, frameBuf, U32(c.x - p.x), U32(c.y - p.y), color);
    PlotAllStep(s, was, ps, 3, color);
    DrawPixel(s, frameBuf, U32(c.x + p.y), U32(c.y + p.x), color);
    PlotAllStep(s, was, ps, 4, color);
    DrawPixel(s, frameBuf, U32(c.x + p.y), U32(c.y - p.x), color);
    PlotAllStep(s, was, ps, 5, color);
    DrawPixel(s, frameBuf, U32(c.x - p.y), U32(c.y + p.x), color);
    PlotAllStep(s, was, ps, 6, color);
    DrawPixel(s, frameBuf, U32(c.x - p.y), U32(c.y - p.x), color);
    PlotAllStep(s, was, ps, 7, color);
    assert ps[..8] == ps;
  }

  lemma PlotNone(s: Screen, buf: seq<Pixel>, color: Pixel)
    ensures PlotAll(s, buf, [], color) == buf
  {
  }

  /** One point more on the arc. */
  lemma ArcGrows(s: Screen, buf: seq<Pixel>, c: Point, arc: seq<Point>, p: Point, radius: int, color: Pixel)
    requires IsArc(arc, radius) && p.x == |arc| && p.x <= p.y
    requires p == if arc == [] then Point(0, radius) else NextPoint(arc[|arc| - 1], radius)
    ensures IsArc(arc + [p], radius) && (arc + [p])[|arc|] == p
    ensures PlotAll(s, buf, AllReflections(c, arc + [p]), color)
            == PlotAll(s, PlotAll(s, buf, AllReflections(c, arc), color), Reflections(c, p), color)
  {
    hide NextPoint, PlotAll, Reflections;
    assert (arc + [p])[..|arc|] == arc;
    PlotAllAppend(s, buf, AllReflections(c, arc), Reflections(c, p), color);
  }

  /** `gpu_draw_circle`: draws the reflections of the whole arc and nothing else. */
  method DrawCircle(s: Screen, frameBuf: array<Pixel>, x: int, y: int, radius: int, color: Pixel)
    returns (ghost arc: seq<Point>)
    requires s.Valid() && s.width * s.height <= frameBuf.Length
    requires IsU32(x) && IsU32(y) && 0 <= radius <= 0x2000_0000
    modifies frameBuf
    ensures IsWholeArc(arc, radius)
    ensures frameBuf[..] == PlotAll(s, old(frameBuf[..]), AllReflections(Point(x, y), arc), color)
  {
    hide PlotAll, Reflections, AllReflections, Error, Decision, NextPoint;
    assert AllReflections(Point(x, y), []) == [] by { NoReflections(Point(x, y)); }
    var x1, y1 := 0, radius;
    var d := 3 - 2 * radius;
    arc := [];
    assert PlotAll(s, frameBuf[..], [], color) == frameBuf[..] by { PlotNone(s, frameBuf[..], color); }
    StartFits(radius);
    while x1 <= y1
      invariant 0 <= x1 == |arc| && x1 - 2 <= y1 <= radius && IsArc(arc, radius)
      invariant Point(x1, y1) == if arc == [] then Point(0, radius) else NextPoint(arc[|arc| - 1], radius)
      invariant x1 <= y1 ==> NearCircle(Point(x1, y1), radius)
      invariant d == Decision(Point(x1, y1), radius)
      invariant frameBuf[..] == PlotAll(s, old(frameBuf[..]), AllReflections(Point(x, y), arc), color)
      decreases y1 - x1
    {
      ghost var p := Point(x1, y1);
      ArcGrows(s, old(frameBuf[..]), Point(x, y), arc, p, radius, color);
      DrawEight(s, frameBuf, Point(x, y), Point(x1, y1), color);
      arc := arc + [p];
      NextIsNear(p, radius);
      DecisionFits(p, radius);
      NextIs(p, radius);
      if d < 0 {
        assert IsI32(4 * x1) && IsI32(d + 4 * x1) && IsI32(d + 4 * x1 + 6);
        d := d + 4 * x1 + 6;
      } else {
        assert IsI32(4 * (x1 - y1)) && IsI32(d + 4 * (x1 - y1)) && IsI32(d + 4 * (x1 - y1) + 10);
        d := d + 4 * (x1 - y1) + 10;
        y1 := y1 - 1;
      }
      x1 := x1 + 1;
    }
  }

  lemma NoReflections(c: Point)
    ensures AllReflections(c, []) == []
  {
  }

  lemma StartFits(radius: int)
    requires 0 <= radius
    ensures NearCircle(Point(0, radius), radius) && Decision(Point(0, radius), radius) == 3 - 2 * radius
  {
    hide Decision;
    ErrorSteps(Point(0, radius), radius);
  }

  lemma NextIs(p: Point, radius: int)
    ensures NextPoint(p, radius) == Point(p.x + 1, if Decision(p, radius) < 0 then p.y else p.y - 1)
  {
  }

  /** `d` is a point of the arc with its signs changed or its coordinates exchanged. */
  predicate IsReflection(d: Point, p: Point) {
    || ((d.x == p.x || d.x == -p.x) && (d.y == p.y || d.y == -p.y))
    || ((d.x == p.y || d.x == -p.y) && (d.y == p.x || d.y == -p.x))
  }

  /** The place at distance `d` from the centre, in 32 bits. */
  function Around(c: Point, d: Point): Point { Point(U32(c.x + d.x), U32(c.y + d.y)) }

  /** The eight places are those of all reflections of the point, and of nothing else. */
  lemma ReflectionsAre(c: Point, p: Point, q: Point)
    ensures q in Reflections(c, p) <==> exists d :: IsReflection(d, p) && q == Around(c, d)
  {
    hide U32;
    if q in Reflections(c, p) {
      var i :| 0 <= i < 8 && q == Reflections(c, p)[i];
      var x, y := if i < 4 then p.x else p.y, if i < 4 then p.y else p.x;
      var d := Point(if i % 4 < 2 then x else -x, if i % 2 == 0 then y else -y);
      assert IsReflection(d, p) && q == Around(c, d);
    }
    if d :| IsReflection(d, p) && q == Around(c, d) {
      assert Reflections(c, p)[0] in Reflections(c, p) && Reflections(c, p)[1] in Reflections(c, p);
      assert Reflections(c, p)[2] in Reflections(c, p) && Reflections(c, p)[3] in Reflections(c, p);
      assert Reflections(c, p)[4] in Reflections(c, p) && Reflections(c, p)[5] in Reflections(c, p);
      assert Reflections(c, p)[6] in Reflections(c, p) && Reflections(c, p)[7] in Reflections(c, p);
    }
  }

  /** A place of the circle: a reflection of a point of the arc, seen from the centre. */
  ghost predicate OnCircle(c: Point, arc: seq<Point>, d: Point, q: Point) {
    q == Around(c, d) && exists i :: 0 <= i < |arc| && IsReflection(d, arc[i])
  }

  /** A reflection is as near to the circle as the point of the arc. */
  lemma ReflectionIsNear(d: Point, p: Point, radius: int)
    requires 0 <= p.x <= p.y && NearCircle(p, radius) && IsReflection(d, p)
    ensures var far := if d.x * d.x > d.y * d.y then d.x else d.y;
            (far == p.y || far == -p.y) && -p.y <= Error(d, radius) <= p.y
  {
    Square(p.x, p.y);
    assert d.x * d.x == p.x * p.x || d.x * d.x == p.y * p.y;
  }

  /** After a circle is drawn, a place on the screen has the colour exactly if it is a reflection of a point
      of the arc; such places are near the circle, and every other pixel is as it was. */
  lemma CircleOnScreen(s: Screen, buf: seq<Pixel>, c: Point, arc: seq<Point>, radius: int, color: Pixel, q: Point)
    requires s.Valid() && s.width * s.height <= |buf| && s.Shows(q) && IsArc(arc, radius)
    ensures 0 <= s.Offset(q) < |buf|
    ensures PlotAll(s, buf, AllReflections(c, arc), color)[s.Offset(q)]
            == if exists d :: OnCircle(c, arc, d, q) then color else buf[s.Offset(q)]
    ensures forall d :: OnCircle(c, arc, d, q) ==>
              exists i :: 0 <= i < |arc| && IsReflection(d, arc[i]) && -arc[i].y <= Error(d, radius) <= arc[i].y
  {
    hide Reflections, Around, IsReflection, PlotAll, AllReflections, Error, NearCircle, NextPoint;
    PlotAllAt(s, buf, AllReflections(c, arc), color, q);
    InReflections(c, arc, q);
    forall i: nat | i < |arc|
      ensures q in Reflections(c, arc[i]) <==> exists d :: IsReflection(d, arc[i]) && q == Around(c, d)
    {
      ReflectionsAre(c, arc[i], q);
    }
    if i: nat :| i < |arc| && q in Reflections(c, arc[i]) {
      var d :| IsReflection(d, arc[i]) && q == Around(c, d);
      assert OnCircle(c, arc, d, q);
    }
    forall d | OnCircle(c, arc, d, q)
      ensures exists i :: 0 <= i < |arc| && IsReflection(d, arc[i]) && -arc[i].y <= Error(d, radius) <= arc[i].y
    {
      var i :| 0 <= i < |arc| && IsReflection(d, arc[i]);
      ArcIsNear(arc, radius, i);
      ReflectionIsNear(d, arc[i], radius);
    }
  }

  lemma {:induction false} InReflections(c: Point, arc: seq<Point>, p: Point)
    ensures p in AllReflections(c, arc) <==> exists i :: 0 <= i < |arc| && p in Reflections(c, arc[i])
  {
    hide Reflections;
    if arc != [] {
      var n := |arc| - 1;
      InReflections(c, arc[..n], p);
      assert AllReflections(c, arc) == AllReflections(c, arc[..n]) + Reflections(c, arc[n]);
      if i: nat :| i < n && p in Reflections(c, arc[..n][i]) {
        assert p in Reflections(c, arc[i]);
      }
      forall i | 0 <= i < |arc| && p in Reflections(c, arc[i]) ensures p in AllReflections(c, arc) {
        assert i < n ==> p in Reflections(c, arc[..n][i]);
      }
    }
  }
}

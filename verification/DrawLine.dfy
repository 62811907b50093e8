/** LCD_DrawLine of drv_lcd.c: two error counters, one per axis, and a point per turn. */
module DrawLine {

  type u16 = x: int | 0 <= x < 0x1_0000

  datatype Point = Point(x: int, y: int)

  function Abs(n: int): nat {
    if n >= 0 then n else -n
  }

  function Sign(n: int): int {
    if n > 0 then 1 else if n == 0 then 0 else -1
  }

  function Distance(x1: int, y1: int, x2: int, y2: int): nat {
    if Abs(x2 - x1) > Abs(y2 - y1) then Abs(x2 - x1) else Abs(y2 - y1)
  }

  // ----- the pixels of a line, in closed form

  /** How often an axis of extent `delta` has moved after `t` turns: one less than t * delta /
      distance rounded up. */
  function Moves(t: nat, delta: nat, distance: nat): int {
    if t == 0 || delta == 0 || distance == 0 then 0 else (t * delta - 1) / distance
  }

  /** What is left in the error counter. */
  function Residue(t: nat, delta: nat, distance: nat): int {
    t * delta - distance * Moves(t, delta, distance)
  }

  /** The point drawn in turn `t`. */
  function PixelAt(x1: int, y1: int, x2: int, y2: int, t: nat): Point {
    var d := Distance(x1, y1, x2, y2);
    Point(x1 + Sign(x2 - x1) * Moves(t, Abs(x2 - x1), d), y1 + Sign(y2 - y1) * Moves(t, Abs(y2 - y1), d))
  }

  lemma Multiples(k: int, d: nat)
    ensures k >= 1 ==> k * d >= d
    ensures k <= -1 ==> k * d <= 0 - d
  {
  }

  lemma DivUnique(a: int, d: int, q: int, r: int)
    requires d > 0 && a == q * d + r && 0 <= r < d
    ensures a / d == q
  {
    var p := a / d;
    Multiples(q - p, d);
    assert (q - p) * d == a % d - r;
  }

  /** The counter stays between 1 and the distance once a moving axis has started. */
  lemma ResidueRange(t: nat, delta: nat, distance: nat)
    requires delta <= distance
    ensures t > 0 && delta > 0 ==> 0 < Residue(t, delta, distance) <= distance
    ensures t == 0 || delta == 0 ==> Residue(t, delta, distance) == 0
    ensures Moves(t, delta, distance) >= 0
  {
    if t > 0 && delta > 0 {
      var a := t * delta - 1;
      assert t * delta >= 1;
      assert a == distance * (a / distance) + a % distance;
    }
  }

  /** What one turn does to an axis. */
  lemma MovesStep(t: nat, delta: nat, distance: nat)
    requires delta <= distance
    ensures var e, m := Residue(t, delta, distance) + delta, Moves(t, delta, distance);
      && Moves(t + 1, delta, distance) == (if e > distance then m + 1 else m)
      && Residue(t + 1, delta, distance) == (if e > distance then e - distance else e)
  {
    ResidueRange(t, delta, distance);
    if delta > 0 {
      var e, m := Residue(t, delta, distance) + delta, Moves(t, delta, distance);
      assert (t + 1) * delta == t * delta + delta;
      if e > distance {
        assert distance * (m + 1) == distance * m + distance;
        DivUnique((t + 1) * delta - 1, distance, m + 1, e - distance - 1);
      } else {
        DivUnique((t + 1) * delta - 1, distance, m, e - 1);
      }
    }
  }

  // ----- what the pixels are

  /** In the last turn every axis has arrived. */
  lemma Arrives(delta: nat, distance: nat)
    requires delta <= distance
    ensures Moves(distance + 1, delta, distance) == delta
  {
    if delta > 0 {
      assert (distance + 1) * delta == distance * delta + delta;
      DivUnique((distance + 1) * delta - 1, distance, delta, delta - 1);
    }
  }

  lemma {:induction false} MovesOrdered(t: nat, u: nat, delta: nat, distance: nat)
    requires delta <= distance && t <= u
    ensures Moves(t, delta, distance) <= Moves(u, delta, distance)
    decreases u - t
  {
    if t < u {
      MovesStep(t, delta, distance);
      MovesOrdered(t + 1, u, delta, distance);
    }
  }

  lemma MovesInside(t: nat, delta: nat, distance: nat)
    requires delta <= distance && t <= distance + 1
    ensures 0 <= Moves(t, delta, distance) <= delta
  {
    ResidueRange(t, delta, distance);
    MovesOrdered(t, distance + 1, delta, distance);
    Arrives(delta, distance);
  }

  /** The longer axis moves in every turn but the first. */
  lemma LongAxis(t: nat, distance: nat)
    requires t > 0 && distance > 0
    ensures Moves(t, distance, distance) == t - 1
  {
    assert t * distance == (t - 1) * distance + distance;
    DivUnique(t * distance - 1, distance, t - 1, distance - 1);
  }

  /** The shorter axis is less than one move away from where the ideal line is. */
  lemma ShortAxis(t: nat, delta: nat, distance: nat)
    requires delta <= distance && distance > 0
    ensures Abs(distance * Moves(t, delta, distance) - delta * Moves(t, distance, distance)) < distance
  {
    ResidueRange(t, delta, distance);
    if t > 0 {
      LongAxis(t, distance);
      assert t * delta == delta * (t - 1) + delta;
      assert distance * Moves(t, delta, distance) == t * delta - Residue(t, delta, distance);
    }
  }

  /** Twice the area between the point and the ideal line; divided by the distance it is how far
      off the line the point is along the shorter axis. */
  function Off(x1: int, y1: int, x2: int, y2: int, p: Point): int {
    (x2 - x1) * (p.y - y1) - (y2 - y1) * (p.x - x1)
  }

  ghost predicate Between(a: int, p: int, b: int) {
    a <= p <= b || b <= p <= a
  }

  lemma Signs(d: int, m: int)
    ensures d == Sign(d) * Abs(d) && Abs(Sign(d) * m) == (if d == 0 then 0 else Abs(m))
    ensures 0 <= m <= Abs(d) ==> Between(0, Sign(d) * m, d)
  {
  }

  /** A line starts at its first end and stops at its second. */
  lemma Ends(x1: int, y1: int, x2: int, y2: int)
    ensures PixelAt(x1, y1, x2, y2, 0) == Point(x1, y1)
    ensures PixelAt(x1, y1, x2, y2, Distance(x1, y1, x2, y2) + 1) == Point(x2, y2)
  {
    var d := Distance(x1, y1, x2, y2);
    Arrives(Abs(x2 - x1), d);
    Arrives(Abs(y2 - y1), d);
    Signs(x2 - x1, 0);
    Signs(y2 - y1, 0);
  }

  /** It stays in the rectangle the ends span. */
  lemma InBox(x1: int, y1: int, x2: int, y2: int, t: nat)
    requires t <= Distance(x1, y1, x2, y2) + 1
    ensures var p := PixelAt(x1, y1, x2, y2, t); Between(x1, p.x, x2) && Between(y1, p.y, y2)
  {
    var d := Distance(x1, y1, x2, y2);
    hide Moves;
    MovesInside(t, Abs(x2 - x1), d);
    MovesInside(t, Abs(y2 - y1), d);
    Signs(x2 - x1, Moves(t, Abs(x2 - x1), d));
    Signs(y2 - y1, Moves(t, Abs(y2 - y1), d));
  }

  /** Each point is the one before or a neighbour of it, and always towards the end. */
  lemma Connected(x1: int, y1: int, x2: int, y2: int, t: nat)
    ensures var p, q := PixelAt(x1, y1, x2, y2, t), PixelAt(x1, y1, x2, y2, t + 1);
      && (q.x == p.x || q.x == p.x + Sign(x2 - x1))
      && (q.y == p.y || q.y == p.y + Sign(y2 - y1))
  {
    hide PixelAt, Moves, Residue;
    Turn(x1, y1, x2, y2, t);
  }

  lemma CrossAbs(dx: int, dy: int, a: int, b: int)
    requires a >= 0 && b >= 0 && (dx == 0 ==> a == 0) && (dy == 0 ==> b == 0)
    ensures Abs(dx * (Sign(dy) * b) - dy * (Sign(dx) * a)) == Abs(Abs(dx) * b - Abs(dy) * a)
  {
    SignedProduct(dx, dy, b);
    SignedProduct(dy, dx, a);
  }

  lemma SignedProduct(d: int, e: int, m: int)
    ensures var s := Sign(d) * Sign(e);
      d * (Sign(e) * m) == if s > 0 then Abs(d) * m else if s < 0 then -(Abs(d) * m) else 0
  {
    if e > 0 {
      assert Sign(e) * m == m;
      if d < 0 { assert d * m == -(-d * m); }
    } else if e < 0 {
      assert Sign(e) * m == -m;
      if d < 0 { assert d * -m == -d * m; } else { assert d * -m == -(d * m); }
    }
  }

  /** Every point is less than one pixel off the ideal line, measured along the shorter axis. */
  lemma CloseToLine(x1: int, y1: int, x2: int, y2: int, t: nat)
    requires Point(x1, y1) != Point(x2, y2)
    ensures Abs(Off(x1, y1, x2, y2, PixelAt(x1, y1, x2, y2, t))) < Distance(x1, y1, x2, y2)
  {
    hide Moves, Residue, Sign;
    var dx, dy, d := x2 - x1, y2 - y1, Distance(x1, y1, x2, y2);
    var a, b := Moves(t, Abs(dx), d), Moves(t, Abs(dy), d);
    StaysPut(t, dx, d);
    StaysPut(t, dy, d);
    OffIsCross(x1, y1, x2, y2, a, b);
    CrossAbs(dx, dy, a, b);
    hide Off, PixelAt;
    if Abs(dx) == d {
      ShortAxis(t, Abs(dy), d);
    } else {
      ShortAxis(t, Abs(dx), d);
      AbsSwap(d * a, Abs(dx) * b);
    }
  }

  /** An axis without extent does not move. */
  lemma StaysPut(t: nat, delta: int, distance: nat)
    requires Abs(delta) <= distance
    ensures Moves(t, Abs(delta), distance) >= 0 && (delta == 0 ==> Moves(t, Abs(delta), distance) == 0)
  {
    ResidueRange(t, Abs(delta), distance);
  }

  lemma OffIsCross(x1: int, y1: int, x2: int, y2: int, a: int, b: int)
    ensures var dx, dy := x2 - x1, y2 - y1;
      Off(x1, y1, x2, y2, Point(x1 + Sign(dx) * a, y1 + Sign(dy) * b)) == dx * (Sign(dy) * b) - dy * (Sign(dx) * a)
  {
  }

  lemma AbsSwap(x: int, y: int)
    ensures Abs(x - y) == Abs(y - x)
  {
  }

  // ----- the loop

  /** The turn counter is 16 bits wide. */
  function Counter(turns: nat): nat {
    turns % 0x1_0000
  }

  /** The loop ends exactly if some value of its counter is beyond the last turn, and that is so
      exactly below a distance of 65534. */
  lemma EndsIff(distance: nat)
    ensures (exists turns: nat :: Counter(turns) > distance + 1) <==> distance < 0xFFFE
  {
    if distance < 0xFFFE { assert Counter(0xFFFF) > distance + 1; }
  }

  method Draw(x1: u16, y1: u16, x2: u16, y2: u16) returns (points: seq<Point>)
    requires Distance(x1, y1, x2, y2) < 0xFFFE
    ensures |points| == Distance(x1, y1, x2, y2) + 2
    ensures forall t :: 0 <= t < |points| ==> points[t] == PixelAt(x1, y1, x2, y2, t)
  {
    hide PixelAt, Moves, Residue;
    var deltaX, deltaY := x2 - x1, y2 - y1;
    var incX, incY := Sign(deltaX), Sign(deltaY);
    deltaX, deltaY := Abs(deltaX), Abs(deltaY);
    var distance := if deltaX > deltaY then deltaX else deltaY;
    points := Turns(x1, y1, x2, y2, deltaX, deltaY, incX, incY, distance);
  }

  /** The loop, from the first end on. */
  method Turns(x1: int, y1: int, ghost x2: int, ghost y2: int, deltaX: nat, deltaY: nat, incX: int, incY: int,
               distance: nat)
    returns (points: seq<Point>)
    requires distance == Distance(x1, y1, x2, y2) < 0xFFFE && deltaX == Abs(x2 - x1) && deltaY == Abs(y2 - y1)
    requires incX == Sign(x2 - x1) && incY == Sign(y2 - y1)
    ensures |points| == distance + 2
    ensures forall t :: 0 <= t < |points| ==> points[t] == PixelAt(x1, y1, x2, y2, t)
  {
    hide *;
    AtStart(x1, y1, x2, y2);
    var xerr, yerr, row, col, t := 0, 0, x1, y1, 0;
    points := [];
    while t <= distance + 1
      invariant 0 <= t <= distance + 2 && |points| == t
      invariant forall k :: 0 <= k < |points| ==> points[k] == PixelAt(x1, y1, x2, y2, k)
      invariant Point(row, col) == PixelAt(x1, y1, x2, y2, t)
      invariant xerr == Residue(t, deltaX, distance) && yerr == Residue(t, deltaY, distance)
      decreases distance + 2 - t
    {
      points := points + [Point(row, col)];
      Turn(x1, y1, x2, y2, t);
      CounterSmall(t + 1);
      xerr, row := Advance(xerr, row, deltaX, incX, distance);
      yerr, col := Advance(yerr, col, deltaY, incY, distance);
      t := Counter(t + 1);
    }
  }

  lemma AtStart(x1: int, y1: int, x2: int, y2: int)
    ensures var d := Distance(x1, y1, x2, y2);
      && PixelAt(x1, y1, x2, y2, 0) == Point(x1, y1)
      && Residue(0, Abs(x2 - x1), d) == 0 && Residue(0, Abs(y2 - y1), d) == 0
  {
    ResidueRange(0, Abs(x2 - x1), Distance(x1, y1, x2, y2));
    ResidueRange(0, Abs(y2 - y1), Distance(x1, y1, x2, y2));
  }

  lemma CounterSmall(turns: nat)
    requires turns < 0x1_0000
    ensures Counter(turns) == turns
  {
  }

  /** One axis in one turn. */
  method Advance(err: int, pos: int, delta: int, inc: int, distance: int) returns (err': int, pos': int)
    ensures var e := err + delta;
      err' == (if e > distance then e - distance else e) && pos' == (if e > distance then pos + inc else pos)
  {
    err', pos' := err + delta, pos;
    if err' > distance {
      err', pos' := err' - distance, pos' + inc;
    }
  }

  lemma Turn(x1: int, y1: int, x2: int, y2: int, t: nat)
    ensures var d, p := Distance(x1, y1, x2, y2), PixelAt(x1, y1, x2, y2, t);
      var ex, ey := Residue(t, Abs(x2 - x1), d) + Abs(x2 - x1), Residue(t, Abs(y2 - y1), d) + Abs(y2 - y1);
      && Residue(t + 1, Abs(x2 - x1), d) == (if ex > d then ex - d else ex)
      && Residue(t + 1, Abs(y2 - y1), d) == (if ey > d then ey - d else ey)
      && PixelAt(x1, y1, x2, y2, t + 1) ==
           Point(if ex > d then p.x + Sign(x2 - x1) else p.x, if ey > d then p.y + Sign(y2 - y1) else p.y)
  {
    var d := Distance(x1, y1, x2, y2);
    hide Moves, Residue;
    MovesStep(t, Abs(x2 - x1), d);
    MovesStep(t, Abs(y2 - y1), d);
    SignedStep(Sign(x2 - x1), Moves(t, Abs(x2 - x1), d));
    SignedStep(Sign(y2 - y1), Moves(t, Abs(y2 - y1), d));
  }

  lemma SignedStep(s: int, m: int)
    ensures s * (m + 1) == s * m + s
  {
  }
}

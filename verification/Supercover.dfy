// The grid cells that a line touches: the squares of side one, edges and corners included,
// that meet the segment between the centres of two of them.

module Supercover {
  import opened Words

  datatype Cell = Cell(x: int, y: int)

  // ---- what it is to be touched ----

  // The square round `(x, y)` meets the segment at the fraction `t` of its length.
  ghost predicate MeetsAt(a: Cell, b: Cell, c: Cell, t: real) {
    0.0 <= t <= 1.0 && Within(t, b.x - a.x, c.x - a.x) && Within(t, b.y - a.y, c.y - a.y)
  }

  // The fraction `t` of a distance is within half a cell of `x`.
  ghost predicate Within(t: real, d: int, x: int) {
    -0.5 <= t * d as real - x as real <= 0.5
  }

  ghost predicate Meets(a: Cell, b: Cell, c: Cell) {
    exists t :: MeetsAt(a, b, c, t)
  }

  // The same for a line from the origin to `(dx, dy)`, in whole numbers.
  predicate Near(dx: int, dy: int, x: int, y: int) {
    0 <= x <= dx && 0 <= y <= dy && -(dx + dy) <= 2 * (dy * x - dx * y) <= dx + dy
  }

  // ---- the march along the longer side ----

  // Where the line is in column `x`: the row whose error is within the square.
  ghost predicate Row(dx: int, dy: int, x: int, y: int, error: int) {
    error == dx + 2 * (dy * x - dx * y) && 0 < error <= 2 * dx
  }

  lemma RowInside(dx: int, dy: int, x: int, y: int, error: int)
    requires 0 <= dy <= dx && 0 <= x <= dx && 0 <= y && Row(dx, dy, x, y, error)
    ensures y <= dy && (x == dx ==> y == dy)
  {
    MulMonotone(x, dx, dy);
    if y >= dy + 1 {
      MulMonotone(dy + 1, y, dx);
    }
    if x == dx && y <= dy - 1 {
      MulMonotone(y, dy - 1, dx);
    }
  }

  // How far off the row `k` below is.
  lemma RowOff(dx: int, dy: int, x: int, y: int, error: int, r: int, e: int)
    requires Row(dx, dy, x, y, error) && e == dx * (y - r)
    ensures Near(dx, dy, x, r) <==> 0 <= x <= dx && 0 <= r <= dy && -dy <= error + 2 * e <= 2 * dx + dy
  {
    assert e == dx * y - dx * r;
  }

  lemma Multiples(d: int, k: int, e: int)
    requires d > 0 && e == d * k
    ensures k == 0 ==> e == 0
    ensures k == 1 ==> e == d
    ensures k == -1 ==> e == -d
    ensures k <= -2 ==> e <= -2 * d
    ensures k >= 2 ==> e >= 2 * d
  {
    if k <= -2 {
      MulMonotone(k, -2, d);
    } else if k >= 2 {
      MulMonotone(2, k, d);
    }
  }

  // In a column, the rows that are near are the line's own and maybe the one on either side.
  lemma RowsNear(dx: int, dy: int, x: int, y: int, error: int, r: int)
    requires 0 <= dy <= dx && 0 <= x <= dx && 0 < dx && Row(dx, dy, x, y, error)
    ensures r < y - 1 || r > y + 1 ==> !Near(dx, dy, x, r)
    ensures r == y && 0 <= y <= dy ==> Near(dx, dy, x, r)
    ensures r == y - 1 && 0 <= r <= dy ==> (Near(dx, dy, x, r) <==> error <= dy)
    ensures r == y + 1 && 0 <= r <= dy ==> (Near(dx, dy, x, r) <==> error >= 2 * dx - dy)
  {
    hide Near, Row;
    var e := dx * (y - r);
    RowOff(dx, dy, x, y, error, r, e);
    RowErrors(dx, dy, x, y, error);
    Multiples(dx, y - r, e);
  }

  // Up to row `y` of column `x`.
  predicate Reached(x: int, y: int, c: Cell) {
    c.x < x || (c.x == x && c.y <= y)
  }

  ghost predicate Distinct(s: seq<Cell>) {
    forall i, j | 0 <= i < j < |s| :: s[i] != s[j]
  }

  // All that is near, so far, and each once.
  ghost predicate Marked(dx: int, dy: int, marks: seq<Cell>, x: int, y: int) {
    && (forall c <- marks :: Near(dx, dy, c.x, c.y) && Reached(x, y, c))
    && (forall u, v | Near(dx, dy, u, v) && Reached(x, y, Cell(u, v)) :: Cell(u, v) in marks)
    && Distinct(marks)
  }

  // What is marked on the way from row `was` of the column before to row `y` of column `x`.
  function Stepped(dx: int, x: int, was: int, y: int, error: int, errorprev: int): seq<Cell> {
    (if y == was then []
     else if error + errorprev < 2 * dx then [Cell(x, y - 1)]
     else if error + errorprev > 2 * dx then [Cell(x - 1, y)]
     else [Cell(x, y - 1), Cell(x - 1, y)]) + [Cell(x, y)]
  }

  lemma StepMarks(dx: int, dy: int, marks: seq<Cell>, x: int, was: int, y: int, error: int, errorprev: int)
    requires 0 <= dy <= dx && 0 < x <= dx && 0 <= was <= y <= was + 1
    requires Marked(dx, dy, marks, x - 1, was)
    requires Row(dx, dy, x - 1, was, errorprev) && Row(dx, dy, x, y, error)
    ensures Marked(dx, dy, marks + Stepped(dx, x, was, y, error, errorprev), x, y)
  {
    hide Near;
    var more := Stepped(dx, x, was, y, error, errorprev);
    RowInside(dx, dy, x - 1, was, errorprev);
    RowInside(dx, dy, x, y, error);
    StepErrors(dx, dy, x, was, y, error, errorprev);
    forall c <- marks + more
      ensures Near(dx, dy, c.x, c.y) && Reached(x, y, c)
    {
      if c !in marks {
        NewMarks(dx, dy, x, was, y, error, errorprev, c.x, c.y);
      }
    }
    forall u, v | Near(dx, dy, u, v) && Reached(x, y, Cell(u, v))
      ensures Cell(u, v) in marks + more
    {
      if !Reached(x - 1, was, Cell(u, v)) {
        NewMarks(dx, dy, x, was, y, error, errorprev, u, v);
      }
    }
  }

  lemma StepErrors(dx: int, dy: int, x: int, was: int, y: int, error: int, errorprev: int)
    requires Row(dx, dy, x - 1, was, errorprev) && Row(dx, dy, x, y, error) && was <= y <= was + 1
    ensures error == errorprev + 2 * dy - if y == was then 0 else 2 * dx
  {
  }

  // What is marked is what is near and not reached before.
  lemma NewMarks(dx: int, dy: int, x: int, was: int, y: int, error: int, errorprev: int, u: int, v: int)
    requires 0 <= dy <= dx && 0 < x <= dx && 0 <= was <= y <= was + 1 && y <= dy
    requires Row(dx, dy, x - 1, was, errorprev) && Row(dx, dy, x, y, error)
    requires error == errorprev + 2 * dy - if y == was then 0 else 2 * dx
    ensures Cell(u, v) in Stepped(dx, x, was, y, error, errorprev) <==>
      Near(dx, dy, u, v) && Reached(x, y, Cell(u, v)) && !Reached(x - 1, was, Cell(u, v))
  {
    hide Row;
    NearInside(dx, dy, u, v);
    RowErrors(dx, dy, x, y, error);
    RowErrors(dx, dy, x - 1, was, errorprev);
    if u == x {
      RowsNear(dx, dy, x, y, error, v);
    } else if u == x - 1 {
      RowsNear(dx, dy, x - 1, was, errorprev, v);
    }
    hide Near;
  }

  lemma NearInside(dx: int, dy: int, u: int, v: int)
    ensures Near(dx, dy, u, v) ==> 0 <= u <= dx && 0 <= v <= dy
  {
  }

  lemma RowErrors(dx: int, dy: int, x: int, y: int, error: int)
    requires Row(dx, dy, x, y, error)
    ensures 0 < error <= 2 * dx
  {
  }

  // ---- the four directions, and the two octants of each ----

  // Where the march starts, which way it goes, and whether it goes along the second coordinate.
  datatype Frame = Frame(start: Cell, xstep: int, ystep: int, steep: bool)

  function Place(f: Frame, m: Cell): Cell {
    if f.steep then Cell(f.start.x + f.xstep * m.y, f.start.y + f.ystep * m.x)
    else Cell(f.start.x + f.xstep * m.x, f.start.y + f.ystep * m.y)
  }

  ghost predicate Placed(f: Frame, marks: seq<Cell>, cells: seq<Cell>) {
    |cells| == |marks| && forall i | 0 <= i < |marks| :: cells[i] == Place(f, marks[i])
  }

  // Marches along the longer side, with an error that says where in the row the line is.
  method March(f: Frame, dx: int, dy: int) returns (cells: seq<Cell>, ghost marks: seq<Cell>)
    requires 0 <= dy <= dx
    ensures Placed(f, marks, cells) && Marked(dx, dy, marks, dx, dy)
    ensures marks != [] && marks[0] == Cell(0, 0) && marks[|marks| - 1] == Cell(dx, dy)
  {
    hide Near, Marked, Row;
    cells, marks := [Place(f, Cell(0, 0))], [Cell(0, 0)];
    FirstMark(dx, dy);
    var x, y, error, errorprev := 0, 0, dx, dx;
    while x < dx
      invariant 0 <= x <= dx && 0 <= y && errorprev == error
      invariant if dx == 0 then y == 0 else Row(dx, dy, x, y, error)
      invariant Placed(f, marks, cells) && Marked(dx, dy, marks, x, y)
      invariant marks != [] && marks[0] == Cell(0, 0) && marks[|marks| - 1] == Cell(x, y)
    {
      ghost var was, before := y, marks;
      NextRow(dx, dy, x, y, error);
      x, error := x + 1, error + 2 * dy;
      if error > 2 * dx {
        y, error := y + 1, error - 2 * dx;
        if error + errorprev < 2 * dx {
          cells, marks := cells + [Place(f, Cell(x, y - 1))], marks + [Cell(x, y - 1)];
        } else if error + errorprev > 2 * dx {
          cells, marks := cells + [Place(f, Cell(x - 1, y))], marks + [Cell(x - 1, y)];
        } else {
          cells := cells + [Place(f, Cell(x, y - 1)), Place(f, Cell(x - 1, y))];
          marks := marks + [Cell(x, y - 1), Cell(x - 1, y)];
        }
      }
      cells, marks := cells + [Place(f, Cell(x, y))], marks + [Cell(x, y)];
      assert marks == before + Stepped(dx, x, was, y, error, errorprev);
      StepMarks(dx, dy, before, x, was, y, error, errorprev);
      errorprev := error;
    }
    if dx > 0 {
      RowInside(dx, dy, dx, y, error);
    }
  }

  lemma FirstMark(dx: int, dy: int)
    requires 0 <= dy <= dx
    ensures Marked(dx, dy, [Cell(0, 0)], 0, 0)
    ensures dx > 0 ==> Row(dx, dy, 0, 0, dx)
  {
  }

  lemma NextRow(dx: int, dy: int, x: int, y: int, error: int)
    requires 0 <= dy <= dx && Row(dx, dy, x, y, error)
    ensures var e := error + 2 * dy;
      if e > 2 * dx then Row(dx, dy, x + 1, y + 1, e - 2 * dx) else Row(dx, dy, x + 1, y, e)
  {
    assert dy * (x + 1) == dy * x + dy && dx * (y + 1) == dx * y + dx;
  }

  // ---- the whole line ----

  // The cells that the line from `a` to `b` touches, from one end to the other, each once.
  method Supercover(a: Cell, b: Cell) returns (cells: seq<Cell>)
    ensures forall c :: c in cells <==> Meets(a, b, c)
    ensures Distinct(cells) && cells != [] && cells[0] == a && cells[|cells| - 1] == b
  {
    hide Near, Marked, Meets;
    var dx, dy := b.x - a.x, b.y - a.y;
    var xstep, ystep := 1, 1;
    if dy < 0 {
      dy, ystep := -dy, -1;
    }
    if dx < 0 {
      dx, xstep := -dx, -1;
    }
    var f := Frame(a, xstep, ystep, dx < dy);
    ghost var marks;
    if dx >= dy {
      cells, marks := March(f, dx, dy);
    } else {
      cells, marks := March(f, dy, dx);
    }
    PlacedMeets(f, a, b, marks, cells);
  }

  ghost predicate Frames(f: Frame, a: Cell, b: Cell) {
    && f.start == a && (f.xstep == 1 || f.xstep == -1) && (f.ystep == 1 || f.ystep == -1)
    && f.xstep * (b.x - a.x) >= 0 && f.ystep * (b.y - a.y) >= 0
  }

  function Along(f: Frame, a: Cell, b: Cell): int {
    if f.steep then f.ystep * (b.y - a.y) else f.xstep * (b.x - a.x)
  }

  function Across(f: Frame, a: Cell, b: Cell): int {
    if f.steep then f.xstep * (b.x - a.x) else f.ystep * (b.y - a.y)
  }

  // The mark of a cell.
  function Unplace(f: Frame, c: Cell): Cell {
    if f.steep then Cell(f.ystep * (c.y - f.start.y), f.xstep * (c.x - f.start.x))
    else Cell(f.xstep * (c.x - f.start.x), f.ystep * (c.y - f.start.y))
  }

  lemma Unplaced(f: Frame, a: Cell, b: Cell, c: Cell)
    requires Frames(f, a, b)
    ensures Place(f, Unplace(f, c)) == c && Unplace(f, Place(f, c)) == c
  {
  }

  lemma PlacedMeets(f: Frame, a: Cell, b: Cell, marks: seq<Cell>, cells: seq<Cell>)
    requires Frames(f, a, b) && Placed(f, marks, cells)
    requires Marked(Along(f, a, b), Across(f, a, b), marks, Along(f, a, b), Across(f, a, b))
    requires marks != [] && marks[0] == Cell(0, 0) && marks[|marks| - 1] == Cell(Along(f, a, b), Across(f, a, b))
    ensures forall c :: c in cells <==> Meets(a, b, c)
    ensures Distinct(cells) && cells != [] && cells[0] == a && cells[|cells| - 1] == b
  {
    hide Near, Meets;
    var dx, dy := Along(f, a, b), Across(f, a, b);
    forall c
      ensures c in cells <==> Meets(a, b, c)
    {
      var m := Unplace(f, c);
      Unplaced(f, a, b, c);
      NearMeets(f, a, b, c);
      NearInside(dx, dy, m.x, m.y);
      if c in cells {
        var i :| 0 <= i < |cells| && cells[i] == c;
        Unplaced(f, a, b, marks[i]);
        assert marks[i] in marks;
      }
      if m in marks {
        var i :| 0 <= i < |marks| && marks[i] == m;
        assert cells[i] == c;
      }
    }
    forall i, j | 0 <= i < j < |cells|
      ensures cells[i] != cells[j]
    {
      Unplaced(f, a, b, marks[i]);
      Unplaced(f, a, b, marks[j]);
    }
  }

  // The whole numbers say exactly when the square meets the segment.
  lemma NearMeets(f: Frame, a: Cell, b: Cell, c: Cell)
    requires Frames(f, a, b)
    ensures var m := Unplace(f, c); Meets(a, b, c) <==> Near(Along(f, a, b), Across(f, a, b), m.x, m.y)
  {
    hide Near;
    var m, dx, dy := Unplace(f, c), Along(f, a, b), Across(f, a, b);
    if Meets(a, b, c) {
      var t :| MeetsAt(a, b, c, t);
      Straight(f, a, b, c, t);
      MeetsNear(dx, dy, m.x, m.y, t);
    }
    if Near(dx, dy, m.x, m.y) {
      var t := NearAt(dx, dy, m.x, m.y);
      Straight(f, a, b, c, t);
    }
  }

  // The line from the origin.
  ghost predicate At(dx: int, dy: int, x: int, y: int, t: real) {
    0.0 <= t <= 1.0 && Within(t, dx, x) && Within(t, dy, y)
  }

  lemma Straight(f: Frame, a: Cell, b: Cell, c: Cell, t: real)
    requires Frames(f, a, b)
    ensures var m := Unplace(f, c); MeetsAt(a, b, c, t) <==> At(Along(f, a, b), Across(f, a, b), m.x, m.y, t)
  {
    hide Within;
    Turned(f.xstep, b.x - a.x, c.x - a.x, t);
    Turned(f.ystep, b.y - a.y, c.y - a.y, t);
  }

  lemma Turned(step: int, d: int, x: int, t: real)
    requires step == 1 || step == -1
    ensures Within(t, d, x) <==> Within(t, step * d, step * x)
  {
    assert t * (-d) as real == -(t * d as real);
  }

  lemma MeetsNear(dx: int, dy: int, x: int, y: int, t: real)
    requires dx >= 0 && dy >= 0 && At(dx, dy, x, y, t)
    ensures Near(dx, dy, x, y)
  {
    Inside(dx, x, t, t * dx as real);
    Inside(dy, y, t, t * dy as real);
    var u, v := t * dx as real - x as real, t * dy as real - y as real;
    Cross(dx, dy, x, y, t, u, v);
  }

  lemma Inside(d: int, x: int, t: real, y: real)
    requires d >= 0 && 0.0 <= t <= 1.0 && y == t * d as real && -0.5 <= y - x as real <= 0.5
    ensures 0 <= x <= d
  {
    Between(t, d as real);
    Rounded(d, x, y);
  }

  lemma Rounded(d: int, x: int, y: real)
    requires 0.0 <= y <= d as real && -0.5 <= y - x as real <= 0.5
    ensures 0 <= x <= d
  {
    Whole(0, x);
    Whole(x, d);
  }

  lemma Between(t: real, d: real)
    requires 0.0 <= t <= 1.0 && d >= 0.0
    ensures 0.0 <= t * d <= d
  {
    assert (1.0 - t) * d >= 0.0;
  }

  lemma Whole(x: int, y: int)
    ensures x as real <= y as real + 0.5 ==> x <= y
  {
    if x >= y + 1 {
      assert x as real >= (y + 1) as real == y as real + 1.0;
    }
  }

  ghost function Times(a: real, b: real): real {
    a * b
  }

  lemma Cross(dx: int, dy: int, x: int, y: int, t: real, u: real, v: real)
    requires dx >= 0 && dy >= 0 && u == Times(t, dx as real) - x as real && v == Times(t, dy as real) - y as real
    requires -0.5 <= u <= 0.5 && -0.5 <= v <= 0.5
    ensures -(dx + dy) <= 2 * (dy * x - dx * y) <= dx + dy
  {
    hide Times;
    Eliminate(dx as real, dy as real, x as real, y as real, t, u, v);
    Half(dx as real, v);
    Half(dy as real, u);
    var e := dy * x - dx * y;
    Products(dx, dy, x, y, e);
    Doubled(e, dx, dy, Times(dx as real, v), Times(dy as real, u));
  }

  lemma Doubled(e: int, dx: int, dy: int, pv: real, qu: real)
    requires e as real == pv - qu && -(dx as real) <= pv + pv <= dx as real && -(dy as real) <= qu + qu <= dy as real
    ensures -(dx + dy) <= 2 * e <= dx + dy
  {
    assert (2 * e) as real == 2.0 * e as real && (dx + dy) as real == dx as real + dy as real;
  }

  lemma Eliminate(p: real, q: real, x: real, y: real, t: real, u: real, v: real)
    requires u == Times(t, p) - x && v == Times(t, q) - y
    ensures Times(q, x) - Times(p, y) == Times(p, v) - Times(q, u)
  {
    assert q * (t * p) == p * (t * q);
    assert p * v == p * (t * q) - p * y;
    assert q * u == q * (t * p) - q * x;
  }

  lemma Half(p: real, v: real)
    requires p >= 0.0 && -0.5 <= v <= 0.5
    ensures -p <= Times(p, v) + Times(p, v) <= p
  {
    assert p * (v + 0.5) >= 0.0 && p * (0.5 - v) >= 0.0;
    assert p * (v + 0.5) == p * v + p * 0.5 && p * (0.5 - v) == p * 0.5 - p * v;
  }

  lemma Products(dx: int, dy: int, x: int, y: int, e: int)
    requires e == dy * x - dx * y
    ensures e as real == Times(dy as real, x as real) - Times(dx as real, y as real)
  {
  }

  // The first fraction that is far enough for both coordinates.
  lemma NearAt(dx: int, dy: int, x: int, y: int) returns (t: real)
    requires dx >= 0 && dy >= 0 && Near(dx, dy, x, y)
    ensures At(dx, dy, x, y, t)
  {
    var p, q := First(dx, x), First(dy, y);
    FirstIs(dx, x);
    FirstIs(dy, y);
    t := if p >= q then p else q;
    FarEnough(dx, x, t);
    FarEnough(dy, y, t);
    NotTooFar(dx, dy, x, y);
    NotTooFar(dy, dx, y, x);
  }

  lemma FirstIs(d: int, x: int)
    requires 0 <= x <= d
    ensures 0.0 <= First(d, x) <= 1.0
    ensures First(d, x) == 0.0 || (x > 0 && First(d, x) * d as real == x as real - 0.5)
    ensures First(d, x) * d as real <= x as real + 0.5
    ensures First(d, x) == 0.0 ==> x == 0
  {
    if x > 0 {
      Quotient(x as real - 0.5, d as real);
    }
  }

  lemma Quotient(a: real, d: real)
    requires 0.0 < a <= d
    ensures 0.0 < a / d <= 1.0 && a / d * d == a
  {
    var f := a / d;
    assert f * d == a;
    Smaller(f, 1.0, d);
  }

  lemma FarEnough(d: int, x: int, t: real)
    requires 0 <= x <= d && First(d, x) <= t
    ensures t * d as real - x as real >= -0.5
  {
    FirstIs(d, x);
    assert (t - First(d, x)) * d as real >= 0.0;
    assert t * d as real >= First(d, x) * d as real;
  }

  lemma NotTooFar(dx: int, dy: int, x: int, y: int)
    requires Near(dx, dy, x, y) && dx >= 0 && dy >= 0
    ensures First(dx, x) * dy as real - y as real <= 0.5
  {
    FirstIs(dx, x);
    var t, p, q := First(dx, x), dx as real, dy as real;
    if t > 0.0 {
      Products(dx, dy, x, y, dy * x - dx * y);
      Twice(dy * x - dx * y, dx + dy);
      assert q * x as real - p * y as real <= (p + q) / 2.0;
      assert (t * q - y as real) * p == q * (t * p) - p * y as real;
      assert q * (t * p) == q * x as real - q * 0.5;
      Smaller(t * q - y as real, 0.5, p);
    }
  }

  lemma Twice(a: int, b: int)
    requires 2 * a <= b
    ensures a as real <= b as real / 2.0
  {
    assert (2 * a) as real == 2.0 * a as real;
  }

  lemma Smaller(a: real, b: real, p: real)
    requires a * p <= b * p && p > 0.0
    ensures a <= b
  {
  }

  function First(d: int, x: int): real
    requires d >= 0
  {
    if x <= 0 || d == 0 then 0.0 else (x as real - 0.5) / d as real
  }
}

/** The maze grid and its queries (src/maze.rs): tiles, bounds-checked lookup,
    edge detection, the exit scan and the neighbour enumeration. */
module Mazes {
  import opened Wrappers
  import opened Coords

  datatype Tile = Wall | Path

  /** A parsed maze. `data` holds the tiles row by row (index `y * width + x`). */
  datatype Maze = Maze(width: nat, height: nat, data: seq<Tile>)

  /** The layout every lookup relies on. `Maze::read` never checks it, so it is
      stated here and demanded by the operations that index `data`. */
  predicate Valid(m: Maze)
  {
    |m.data| == m.width * m.height
  }

  /** `is_inbounds`. */
  predicate InBounds(m: Maze, c: Coord)
  {
    c.x < m.width && c.y < m.height
  }

  lemma MulLe(a: nat, b: nat, c: nat)
    requires a <= b
    ensures a * c <= b * c
  {
    assert b * c == a * c + (b - a) * c;
  }

  /** Row-major indices of in-bounds cells stay inside a `width * height` grid. */
  lemma RowMajorBound(w: nat, h: nat, x: nat, y: nat)
    requires x < w && y < h
    ensures y * w + x < w * h
    ensures y * w + w <= w * h
  {
    MulLe(y + 1, h, w);
    assert (y + 1) * w == y * w + w;
  }

  /** `get`: `None` outside the grid, otherwise the stored tile. */
  function Get(m: Maze, c: Coord): (r: Option<Tile>)
    requires Valid(m)
    ensures r.None? <==> !InBounds(m, c)
  {
    if !InBounds(m, c) then None
    else
      RowMajorBound(m.width, m.height, c.x, c.y);
      Some(m.data[c.y * m.width + c.x])
  }

  /** Every stored tile is the answer of `Get` at exactly the cell `(i % width, i / width)`. */
  lemma GetCoversData(m: Maze, i: nat)
    requires Valid(m) && i < |m.data|
    ensures m.width > 0
    ensures Get(m, Coord(i % m.width, i / m.width)) == Some(m.data[i])
  {
    var w := m.width;
    assert w > 0;
    var q, r := i / w, i % w;
    assert i == q * w + r;
    if q >= m.height {
      MulLe(m.height, q, w);
      assert false;
    }
  }

  /** Cells in an earlier row have smaller row-major indices. */
  lemma RowMajorMonotone(w: nat, a: Coord, b: Coord)
    requires a.x < w && b.x < w && a.y < b.y
    ensures a.y * w + a.x < b.y * w + b.x
  {
    assert (a.y + 1) * w == a.y * w + w;
    MulLe(a.y + 1, b.y, w);
  }

  /** Distinct in-bounds cells read distinct positions of `data`. */
  lemma RowMajorInjective(m: Maze, a: Coord, b: Coord)
    requires InBounds(m, a) && InBounds(m, b)
    ensures a.y * m.width + a.x == b.y * m.width + b.x ==> a == b
  {
    if a.y < b.y {
      RowMajorMonotone(m.width, a, b);
    } else if b.y < a.y {
      RowMajorMonotone(m.width, b, a);
    }
  }

  /** `is_edge`. The source computes `width - 1` and `height - 1` in `usize`,
      so it underflows unless the comparisons before them already succeeded. */
  predicate IsEdge(m: Maze, c: Coord)
    requires c.x == 0 || (m.width >= 1 && (c.x == m.width - 1 || c.y == 0 || m.height >= 1))
  {
    c.x == 0 || c.x == m.width - 1 || c.y == 0 || c.y == m.height - 1
  }

  // ---------------------------------------------------------------------------
  // Neighbours
  // ---------------------------------------------------------------------------

  /** The four cardinal offsets in the source's order: left, up, down, right. */
  datatype Direction = Left | Up | Down | Right

  /** `checked_add_signed` on both components: a step below zero yields nothing. */
  function Step(c: Coord, d: Direction): (r: Option<Coord>)
    ensures r.Some? ==> Adjacent(c, r.value)
    ensures r.None? <==> (d == Left && c.x == 0) || (d == Up && c.y == 0)
  {
    match d
    case Left => if c.x == 0 then None else Some(Coord(c.x - 1, c.y))
    case Up => if c.y == 0 then None else Some(Coord(c.x, c.y - 1))
    case Down => Some(Coord(c.x, c.y + 1))
    case Right => Some(Coord(c.x + 1, c.y))
  }

  /** The cell is inside the grid and not a wall (the filter of `neighbours`). */
  predicate Open(m: Maze, c: Coord)
    requires Valid(m)
  {
    InBounds(m, c) && Get(m, c) != Some(Wall)
  }

  function Keep(m: Maze, candidate: Option<Coord>): seq<Coord>
    requires Valid(m)
  {
    if candidate.Some? && Open(m, candidate.value) then [candidate.value] else []
  }

  /** Position of an adjacent cell in the enumeration order left, up, down, right. */
  function StepRank(c: Coord, n: Coord): nat
  {
    if n.x < c.x then 0 else if n.y < c.y then 1 else if n.y > c.y then 2 else 3
  }

  function DirectionRank(d: Direction): nat
  {
    match d
    case Left => 0
    case Up => 1
    case Down => 2
    case Right => 3
  }

  /** The direction that leads from `c` to an adjacent `n`. */
  function DirectionTo(c: Coord, n: Coord): Direction
  {
    if n.x < c.x then Left else if n.y < c.y then Up else if n.y > c.y then Down else Right
  }

  /** What one kept step contributes: at most the stepped-to cell, when it is open. */
  lemma KeepStep(m: Maze, c: Coord, d: Direction)
    requires Valid(m)
    ensures |Keep(m, Step(c, d))| <= 1
    ensures forall n :: n in Keep(m, Step(c, d)) <==> Step(c, d) == Some(n) && Open(m, n)
    ensures forall n :: n in Keep(m, Step(c, d)) ==> StepRank(c, n) == DirectionRank(d)
  {
  }

  /** Every adjacent cell is the step in some direction. */
  lemma AdjacentIsStep(c: Coord, n: Coord)
    requires Adjacent(c, n)
    ensures Step(c, DirectionTo(c, n)) == Some(n)
  {
  }

  predicate RankSorted(c: Coord, s: seq<Coord>)
  {
    forall i, j :: 0 <= i < j < |s| ==> StepRank(c, s[i]) < StepRank(c, s[j])
  }

  lemma SortedAppend(c: Coord, a: seq<Coord>, b: seq<Coord>)
    requires RankSorted(c, a) && RankSorted(c, b)
    requires forall x, y :: x in a && y in b ==> StepRank(c, x) < StepRank(c, y)
    ensures RankSorted(c, a + b)
  {
    forall i, j | 0 <= i < j < |a + b|
      ensures StepRank(c, (a + b)[i]) < StepRank(c, (a + b)[j])
    {
      if j < |a| {
        assert (a + b)[i] == a[i] && (a + b)[j] == a[j];
      } else if i >= |a| {
        assert (a + b)[i] == b[i - |a|] && (a + b)[j] == b[j - |a|];
      } else {
        assert (a + b)[i] in a && (a + b)[j] in b;
      }
    }
  }

  /** `neighbours`: the open cells one cardinal step away, in the order left, up, down, right. */
  function Neighbours(m: Maze, c: Coord): (r: seq<Coord>)
    requires Valid(m)
    ensures |r| <= 4
    ensures forall n :: n in r <==> Open(m, n) && Adjacent(c, n)
    ensures RankSorted(c, r)
  {
    var left, up, down, right :=
      Keep(m, Step(c, Left)), Keep(m, Step(c, Up)), Keep(m, Step(c, Down)), Keep(m, Step(c, Right));
    KeepStep(m, c, Left);
    KeepStep(m, c, Up);
    KeepStep(m, c, Down);
    KeepStep(m, c, Right);
    SortedAppend(c, left, up);
    SortedAppend(c, left + up, down);
    SortedAppend(c, left + up + down, right);
    assert forall n :: Open(m, n) && Adjacent(c, n) ==> Step(c, DirectionTo(c, n)) == Some(n) by {
      forall n | Open(m, n) && Adjacent(c, n)
        ensures Step(c, DirectionTo(c, n)) == Some(n)
      {
        AdjacentIsStep(c, n);
      }
    }
    left + up + down + right
  }

  /** An in-bounds cell is on the edge exactly when some cardinal step from it
      is dropped or leaves the grid. */
  lemma EdgeIffStepLeaves(m: Maze, c: Coord)
    requires InBounds(m, c)
    ensures IsEdge(m, c) <==> exists d :: Step(c, d).None? || !InBounds(m, Step(c, d).value)
  {
    if IsEdge(m, c) {
      if c.x == 0 {
        assert Step(c, Left).None?;
      } else if c.x == m.width - 1 {
        assert !InBounds(m, Step(c, Right).value);
      } else if c.y == 0 {
        assert Step(c, Up).None?;
      } else {
        assert !InBounds(m, Step(c, Down).value);
      }
    }
  }

  // ---------------------------------------------------------------------------
  // Exits
  // ---------------------------------------------------------------------------

  /** A boundary opening: an in-bounds edge cell holding a path tile. */
  predicate IsExit(m: Maze, c: Coord)
    requires Valid(m)
  {
    InBounds(m, c) && IsEdge(m, c) && Get(m, c) == Some(Path)
  }

  /** Row-major scan order: `y` outer, `x` inner. */
  predicate Before(a: Coord, b: Coord)
  {
    a.y < b.y || (a.y == b.y && a.x < b.x)
  }

  predicate StrictlyOrdered(s: seq<Coord>)
  {
    forall i, j :: 0 <= i < j < |s| ==> Before(s[i], s[j])
  }

  /** `get_exits`: every boundary opening once, in row-major order. */
  method GetExits(m: Maze) returns (exits: seq<Coord>)
    requires Valid(m)
    ensures forall c :: c in exits <==> IsExit(m, c)
    ensures StrictlyOrdered(exits)
  {
    exits := [];
    var y := 0;
    while y < m.height
      invariant y <= m.height
      invariant forall c :: c in exits <==> IsExit(m, c) && c.y < y
      invariant StrictlyOrdered(exits)
      invariant forall i :: 0 <= i < |exits| ==> exits[i].y < y
    {
      var x := 0;
      while x < m.width
        invariant x <= m.width
        invariant forall c :: c in exits <==> IsExit(m, c) && Before(c, Coord(x, y))
        invariant StrictlyOrdered(exits)
        invariant forall i :: 0 <= i < |exits| ==> Before(exits[i], Coord(x, y))
      {
        var c := FromPair((x, y));
        if IsEdge(m, c) && Get(m, c) == Some(Path) {
          exits := exits + [c];
        }
        x := x + 1;
      }
      y := y + 1;
    }
  }

  /** The first element of an ordered sequence precedes every other one. */
  lemma FirstIsLeast(s: seq<Coord>, c: Coord)
    requires StrictlyOrdered(s) && c in s
    ensures c == s[0] || Before(s[0], c)
  {
    var k :| 0 <= k < |s| && s[k] == c;
    assert k == 0 || Before(s[0], s[k]);
  }

  /** Two row-major ordered sequences with the same members are equal; so the
      contract of `GetExits` fixes its result and repeated scans agree. */
  lemma {:induction false} OrderedBySameMembers(a: seq<Coord>, b: seq<Coord>)
    requires StrictlyOrdered(a) && StrictlyOrdered(b)
    requires forall c :: c in a <==> c in b
    ensures a == b
    decreases |a|
  {
    assert |a| > 0 ==> a[0] in b;
    assert |b| > 0 ==> b[0] in a;
    if |a| > 0 && |b| > 0 {
      FirstIsLeast(b, a[0]);
      FirstIsLeast(a, b[0]);
      assert a[0] == b[0];
      forall c
        ensures c in a[1..] <==> c in b[1..]
      {
        if c in a[1..] {
          var k :| 0 <= k < |a[1..]| && a[1..][k] == c;
          assert Before(a[0], a[k + 1]);
          assert a[k + 1] in a;
          var j :| 0 <= j < |b| && b[j] == c;
          assert j != 0;
          assert b[1..][j - 1] == c;
        }
        if c in b[1..] {
          var k :| 0 <= k < |b[1..]| && b[1..][k] == c;
          assert Before(b[0], b[k + 1]);
          assert b[k + 1] in b;
          var j :| 0 <= j < |a| && a[j] == c;
          assert j != 0;
          assert a[1..][j - 1] == c;
        }
      }
      OrderedBySameMembers(a[1..], b[1..]);
      assert a == [a[0]] + a[1..];
      assert b == [b[0]] + b[1..];
    }
  }

  // ---------------------------------------------------------------------------
  // Cell sets used by the searches
  // ---------------------------------------------------------------------------

  /** Every cell of a `w` by `h` grid, row by row. */
  function Cells(w: nat, h: nat): (cs: seq<Coord>)
    ensures forall c :: c in cs <==> c.x < w && c.y < h
  {
    if h == 0 then []
    else
      var row := seq(w, x requires 0 <= x < w => Coord(x, h - 1));
      assert forall c :: c in row <==> c.x < w && c.y == h - 1 by {
        forall c: Coord | c.x < w && c.y == h - 1 ensures c in row {
          assert row[c.x] == c;
        }
      }
      Cells(w, h - 1) + row
  }

  /** The cells a search may step onto. */
  function OpenCells(m: Maze): (s: set<Coord>)
    requires Valid(m)
    ensures forall c :: c in s <==> Open(m, c)
  {
    set c | c in Cells(m.width, m.height) && Open(m, c)
  }
}

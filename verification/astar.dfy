/** The guided search `a_star` (src/main.rs): a min-priority queue ordered by
    `g + h`, the best known distance from the start plus the Manhattan
    distance to the end. */
module AStarSearch {
  import opened Wrappers
  import opened Coords
  import opened Mazes
  import opened Routes

  // ---------------------------------------------------------------------------
  // The heuristic
  // ---------------------------------------------------------------------------

  /** `usize::abs_diff`. */
  function AbsDiff(a: nat, b: nat): nat
  {
    if a < b then b - a else a - b
  }

  /** `h`: the Manhattan distance. It vanishes only between equal cells and is
      one exactly between adjacent cells. */
  function H(a: Coord, b: Coord): (d: nat)
    ensures d == 0 <==> a == b
    ensures d == 1 <==> Adjacent(a, b)
  {
    AbsDiff(a.x, b.x) + AbsDiff(a.y, b.y)
  }

  /** The distance does not depend on the direction it is measured in. */
  lemma HSymmetric(a: Coord, b: Coord)
    ensures H(a, b) == H(b, a)
  {
  }

  /** One cardinal step changes the distance to any cell by exactly one. */
  lemma HStep(a: Coord, b: Coord, e: Coord)
    requires Adjacent(a, b)
    ensures H(a, e) == H(b, e) + 1 || H(b, e) == H(a, e) + 1
  {
  }

  /** The heuristic is admissible: no walk of cardinal steps from `a` to `b`
      has fewer than `H(a, b)` steps. */
  lemma {:induction false} HAdmissible(route: seq<Coord>)
    requires |route| >= 1
    requires forall i :: 0 < i < |route| ==> Adjacent(route[i - 1], route[i])
    ensures H(route[0], route[|route| - 1]) <= |route| - 1
    decreases |route|
  {
    if |route| > 1 {
      var init := route[..|route| - 1];
      HAdmissible(init);
      HStep(route[|route| - 2], route[|route| - 1], route[0]);
      HSymmetric(route[0], route[|route| - 1]);
      HSymmetric(route[0], route[|route| - 2]);
    }
  }

  // ---------------------------------------------------------------------------
  // The priority queue
  // ---------------------------------------------------------------------------

  /** Each queued cell and its priority; smaller priorities leave first. */
  type Queue = map<Coord, nat>

  /** `push_increase` on a queue ordered by `Reverse(f)`: a new cell is added,
      a queued cell keeps the better (smaller) of its two priorities. */
  function PushIncrease(q: Queue, c: Coord, p: nat): (r: Queue)
    ensures r.Keys == q.Keys + {c}
    ensures r[c] <= p && (c in q ==> r[c] <= q[c])
    ensures r[c] == p || (c in q && r[c] == q[c])
    ensures forall k :: k in q && k != c ==> r[k] == q[k]
  {
    if c in q && q[c] <= p then q else q[c := p]
  }

  /** `c` has the smallest priority in `q`. */
  predicate IsMin(q: Queue, c: Coord)
  {
    c in q && forall k :: k in q ==> q[c] <= q[k]
  }

  lemma {:induction false} MinExists(q: Queue)
    requires |q| > 0
    ensures exists c :: IsMin(q, c)
    decreases |q|
  {
    var k :| k in q;
    var rest := q - {k};
    if |rest| == 0 {
      assert forall j :: j in q ==> j == k by {
        forall j | j in q
          ensures j == k
        {
          assert j !in rest;
        }
      }
      assert IsMin(q, k);
    } else {
      assert |rest| < |q| by {
        assert rest.Keys < q.Keys;
      }
      MinExists(rest);
      var c :| IsMin(rest, c);
      assert forall j :: j in q ==> j == k || (j in rest && q[j] == rest[j]);
      if q[k] < rest[c] {
        assert IsMin(q, k);
      } else {
        assert IsMin(q, c);
      }
    }
  }

  /** `pop`: removes a cell of smallest priority. Which of several equal
      cells leaves first is up to the queue's implementation. */
  method Pop(q: Queue) returns (c: Coord, rest: Queue)
    requires |q| > 0
    ensures IsMin(q, c)
    ensures rest.Keys == q.Keys - {c}
    ensures forall k :: k in rest ==> rest[k] == q[k]
  {
    MinExists(q);
    c :| IsMin(q, c);
    rest := q - {c};
  }

  // ---------------------------------------------------------------------------
  // Relaxation
  // ---------------------------------------------------------------------------

  /** The search state: the `g` scores, the predecessor map and the queue. */
  datatype Frontier = Frontier(g: map<Coord, nat>, from: Predecessors, queue: Queue)

  /** The body of the neighbour loop: a neighbour whose distance through
      `current` beats its known one (an unknown distance is infinite) takes
      `current` as predecessor, the new distance, and is queued by `g + h`.
      Distances only ever shrink, and only an improvement changes anything. */
  function Relax(s: Frontier, end: Coord, current: Coord, n: Coord): (r: Frontier)
    requires current in s.g
    ensures r.g.Keys == s.g.Keys + {n}
    ensures forall k :: k in s.g ==> r.g[k] <= s.g[k]
    ensures r.g[n] <= s.g[current] + 1
    ensures r.g == s.g ==> r == s
    ensures r.g != s.g <==> n !in s.g || s.g[current] + 1 < s.g[n]
    ensures r.g != s.g ==> r.g[n] == s.g[current] + 1 && n in r.from && r.from[n] == Some(current) && n in r.queue
    ensures forall k :: k in s.g && k != n ==> r.g[k] == s.g[k]
    ensures forall k :: k in s.from && k != n ==> k in r.from && r.from[k] == s.from[k]
  {
    var gn := s.g[current] + 1;
    if n !in s.g || gn < s.g[n] then
      Frontier(s.g[n := gn], s.from[n := Some(current)], PushIncrease(s.queue, n, gn + H(n, end)))
    else
      s
  }

  // ---------------------------------------------------------------------------
  // The loop invariant, in parts
  // ---------------------------------------------------------------------------

  /** `g` and `from` record the same cells; only `start` has no predecessor
      and it has distance zero; every other cell was reached by a move from a
      recorded cell of strictly smaller distance. */
  ghost predicate Tree(next: Coord -> seq<Coord>, start: Coord, s: Frontier)
  {
    && s.g.Keys == s.from.Keys
    && start in s.g && s.g[start] == 0 && s.from[start] == None
    && forall v {:trigger s.from[v]} :: v in s.from && v != start ==>
         && s.from[v].Some? && s.from[v].value in s.g
         && v in next(s.from[v].value) && s.g[s.from[v].value] < s.g[v]
  }

  /** Queued cells are recorded and queued by `g + h`. */
  ghost predicate Queued(end: Coord, s: Frontier)
  {
    && s.queue.Keys <= s.g.Keys
    && forall v :: v in s.queue ==> v in s.g && s.queue[v] == s.g[v] + H(v, end)
  }

  /** Every move out of a recorded cell that has left the queue is recorded,
      except from `end` and `skip`. */
  ghost predicate Expanded(next: Coord -> seq<Coord>, end: Coord, skip: Coord, s: Frontier)
  {
    forall v, n :: v in s.g && v !in s.queue && v != end && v != skip && n in next(v) ==> n in s.g
  }

  ghost predicate AStarState(next: Coord -> seq<Coord>, start: Coord, end: Coord, universe: set<Coord>, s: Frontier)
  {
    && Bounded(next, start, universe) && s.g.Keys <= universe
    && Tree(next, start, s) && Queued(end, s) && Expanded(next, end, end, s)
  }

  /** `s` is `s0` after some relaxations: it records at least the cells of
      `s0`, at no greater distance. */
  ghost predicate Improves(s0: Frontier, s: Frontier)
  {
    s0.g.Keys <= s.g.Keys && forall k :: k in s0.g ==> s.g[k] <= s0.g[k]
  }

  /** The invariant of the neighbour loop: `done` are the neighbours relaxed so far. */
  ghost predicate Relaxing(next: Coord -> seq<Coord>, start: Coord, end: Coord, universe: set<Coord>,
                           current: Coord, s0: Frontier, s: Frontier, done: seq<Coord>)
  {
    && s.g.Keys <= universe && current in s.g
    && Tree(next, start, s) && Queued(end, s) && Expanded(next, end, current, s)
    && (forall k :: k in done ==> k in s.g)
    && Improves(s0, s) && (s.g == s0.g ==> s == s0)
  }

  /** One relaxation keeps the invariant with `current` not yet expanded. */
  lemma RelaxKeeps(next: Coord -> seq<Coord>, start: Coord, end: Coord, universe: set<Coord>,
                   current: Coord, s0: Frontier, s: Frontier, done: seq<Coord>, n: Coord)
    requires Bounded(next, start, universe) && n in next(current)
    requires Relaxing(next, start, end, universe, current, s0, s, done)
    ensures Relaxing(next, start, end, universe, current, s0, Relax(s, end, current, n), done + [n])
  {
    var r := Relax(s, end, current, n);
    if r.g != s.g {
      assert n != start;
      forall v | v in r.from && v != start
        ensures r.from[v].Some? && r.from[v].value in r.g
        ensures v in next(r.from[v].value) && r.g[r.from[v].value] < r.g[v]
      {
        if v != n {
          assert r.from[v] == s.from[v];
        }
      }
      forall v | v in r.queue
        ensures v in r.g && r.queue[v] == r.g[v] + H(v, end)
      {
        if v != n {
          assert r.queue[v] == s.queue[v];
        }
      }
    }
    if r.g == s0.g {
      assert s.g.Keys == s0.g.Keys;
      assert s.g == s0.g by {
        forall k | k in s0.g
          ensures s.g[k] == s0.g[k]
        {
          assert r.g[k] <= s.g[k];
        }
      }
    }
  }

  /** Once every move out of `current` is recorded, `current` counts as expanded. */
  lemma ExpandCurrent(next: Coord -> seq<Coord>, end: Coord, current: Coord, s: Frontier, neighbours: seq<Coord>)
    requires neighbours == next(current)
    requires Expanded(next, end, current, s)
    requires forall k :: k in neighbours ==> k in s.g
    ensures Expanded(next, end, end, s)
  {
  }

  // ---------------------------------------------------------------------------
  // Termination
  // ---------------------------------------------------------------------------

  /** The cells of a finite set, in some order. */
  ghost function Listing(cells: set<Coord>): (r: seq<Coord>)
    ensures forall c :: c in r <==> c in cells
    decreases |cells|
  {
    if cells == {} then []
    else
      var c :| c in cells;
      [c] + Listing(cells - {c})
  }

  /** The total of the known distances of the listed cells. */
  function Total(cells: seq<Coord>, g: map<Coord, nat>): nat
  {
    if |cells| == 0 then 0
    else (if cells[0] in g then g[cells[0]] else 0) + Total(cells[1..], g)
  }

  lemma {:induction false} TotalLe(cells: seq<Coord>, g: map<Coord, nat>, g': map<Coord, nat>)
    requires g'.Keys == g.Keys && forall k :: k in g ==> g'[k] <= g[k]
    ensures Total(cells, g') <= Total(cells, g)
    decreases |cells|
  {
    if |cells| > 0 {
      TotalLe(cells[1..], g, g');
    }
  }

  lemma {:induction false} TotalLess(cells: seq<Coord>, g: map<Coord, nat>, g': map<Coord, nat>, k: Coord)
    requires g'.Keys == g.Keys && forall j :: j in g ==> g'[j] <= g[j]
    requires k in cells && k in g && g'[k] < g[k]
    ensures Total(cells, g') < Total(cells, g)
    decreases |cells|
  {
    if cells[0] == k {
      TotalLe(cells[1..], g, g');
    } else {
      assert k in cells[1..];
      TotalLess(cells[1..], g, g', k);
    }
  }

  /** Relaxing without adding a cell lowers the total distance. */
  lemma Progress(universe: set<Coord>, g: map<Coord, nat>, g': map<Coord, nat>)
    requires g.Keys <= universe
    requires g'.Keys == g.Keys && forall k :: k in g ==> g'[k] <= g[k]
    requires g' != g
    ensures Total(Listing(universe), g') < Total(Listing(universe), g)
  {
    assert (forall k :: k in g ==> g'[k] == g[k]) ==> g' == g;
    var k :| k in g && g'[k] != g[k];
    TotalLess(Listing(universe), g, g', k);
  }

  // ---------------------------------------------------------------------------
  // The search
  // ---------------------------------------------------------------------------

  /** The neighbour loop of `a_star`: relaxes every move out of `current`.
      Distances never grow, and the state changes only if some distance does. */
  method RelaxNeighbours(next: Coord -> seq<Coord>, ghost start: Coord, end: Coord, ghost universe: set<Coord>,
                         current: Coord, s: Frontier)
    returns (s': Frontier)
    requires Bounded(next, start, universe) && s.g.Keys <= universe
    requires current in s.g && current !in s.queue
    requires Tree(next, start, s) && Queued(end, s) && Expanded(next, end, current, s)
    ensures AStarState(next, start, end, universe, s')
    ensures Improves(s, s') && (s'.g == s.g ==> s' == s)
  {
    var neighbours := next(current);
    s' := s;
    var i := 0;
    while i < |neighbours|
      invariant i <= |neighbours|
      invariant Relaxing(next, start, end, universe, current, s, s', neighbours[..i])
    {
      RelaxKeeps(next, start, end, universe, current, s, s', neighbours[..i], neighbours[i]);
      PrefixStep(neighbours, i);
      s' := Relax(s', end, current, neighbours[i]);
      i := i + 1;
    }
    assert neighbours[..i] == neighbours;
    ExpandCurrent(next, end, current, s', neighbours);
  }

  /** The lexicographic measure of the main loop went down: more cells have
      a distance, or the same cells have a smaller total distance, or the
      same distances and a shorter queue. */
  ghost predicate Progressed(universe: set<Coord>, s: Frontier, s': Frontier)
  {
    var left, left' := universe - s.g.Keys, universe - s'.g.Keys;
    var total, total' := Total(Listing(universe), s.g), Total(Listing(universe), s'.g);
    || left' < left
    || (left' == left && total' < total)
    || (left' == left && total' == total && |s'.queue| < |s.queue|)
  }

  /** One round of the main loop of `a_star`: pop a cell of least priority
      and, unless it is `end`, relax the moves out of it. */
  method Round(next: Coord -> seq<Coord>, ghost start: Coord, end: Coord, ghost universe: set<Coord>, s: Frontier)
    returns (s': Frontier, found: bool)
    requires AStarState(next, start, end, universe, s) && |s.queue| > 0
    ensures AStarState(next, start, end, universe, s')
    ensures found ==> end in s'.g
    ensures !found ==> Progressed(universe, s, s')
  {
    var current, rest := Pop(s.queue);
    var popped := s.(queue := rest);
    if current == end {
      return popped, true;
    }
    s' := RelaxNeighbours(next, start, end, universe, current, popped);
    found := false;
    RoundProgress(universe, s, popped, s');
  }

  lemma RoundProgress(universe: set<Coord>, s: Frontier, popped: Frontier, s': Frontier)
    requires s.g.Keys <= universe && s'.g.Keys <= universe
    requires popped == s.(queue := popped.queue) && popped.queue.Keys < s.queue.Keys
    requires Improves(popped, s') && (s'.g == popped.g ==> s' == popped)
    ensures Progressed(universe, s, s')
  {
    if s'.g.Keys == s.g.Keys {
      if s'.g != s.g {
        Progress(universe, s.g, s'.g);
      } else {
        SubsetSmaller(popped.queue.Keys, s.queue.Keys);
        assert |popped.queue| < |s.queue|;
      }
    } else {
      assert s.g.Keys <= s'.g.Keys;
      assert s'.g.Keys - s.g.Keys == {} ==> s'.g.Keys == s.g.Keys;
      var k :| k in s'.g.Keys - s.g.Keys;
      assert k in universe - s.g.Keys && k !in universe - s'.g.Keys;
    }
  }

  /** The search loop of `a_star` over any move function: the route it finds
      and the number of cells it recorded. It fails exactly when `end`
      cannot be reached from `start`. */
  method Search(next: Coord -> seq<Coord>, start: Coord, end: Coord, ghost universe: set<Coord>)
    returns (r: Result<Found, SearchError>, ghost recorded: set<Coord>)
    requires Bounded(next, start, universe)
    ensures r.Ok? ==> IsRoute(next, start, end, r.value.route)
    ensures r.Ok? <==> Reachable(next, start, end)
    ensures r.Ok? ==> 1 <= r.value.explored <= |universe|
    ensures start == end ==> r.Ok? && r.value.route == [start]
    ensures start in recorded && recorded <= universe
    ensures forall v :: v in recorded ==> Reachable(next, start, v)
    ensures r.Ok? ==> r.value.explored == |recorded|
    ensures r.Ok? ==> forall i :: 0 <= i < |r.value.route| ==> r.value.route[i] in recorded
  {
    var s := Frontier(map[start := 0], map[start := None], map[start := H(start, end)]);
    while |s.queue| > 0
      invariant AStarState(next, start, end, universe, s)
      decreases universe - s.g.Keys, Total(Listing(universe), s.g), |s.queue|
    {
      var found;
      s, found := Round(next, start, end, universe, s);
      if found {
        break;
      }
    }
    r, recorded := Finish(next, start, end, universe, s);
  }

  /** The tail of `a_star`: count the recorded cells and rebuild the route. */
  method Finish(next: Coord -> seq<Coord>, start: Coord, end: Coord, ghost universe: set<Coord>, s: Frontier)
    returns (r: Result<Found, SearchError>, ghost recorded: set<Coord>)
    requires AStarState(next, start, end, universe, s)
    requires |s.queue| == 0 || end in s.g
    ensures r.Ok? ==> IsRoute(next, start, end, r.value.route)
    ensures r.Ok? <==> Reachable(next, start, end)
    ensures r.Ok? ==> 1 <= r.value.explored <= |universe|
    ensures start == end ==> r.Ok? && r.value.route == [start]
    ensures start in recorded && recorded <= universe
    ensures forall v :: v in recorded ==> Reachable(next, start, v)
    ensures r.Ok? ==> r.value.explored == |recorded|
    ensures r.Ok? ==> forall i :: 0 <= i < |r.value.route| ==> r.value.route[i] in recorded
  {
    var from := s.from;
    recorded := from.Keys;
    assert RankedBy(from, s.g) && Closed(from);
    RecordedReachable(next, from, s.g, start);
    if end !in from {
      RegionSeparates(next, s.g.Keys, start, end);
    }
    var result := ReconstructRoute(end, from, s.g);
    if end in from {
      LinkedChainExists(from, s.g, end);
    }
    match result
    case Err(e) =>
      return Err(e), recorded;
    case Ok(route) =>
      LinkedIsRoute(next, from, start, route);
      RootRoute(from, start, route);
      SubsetCardinality(from.Keys, universe);
      LinkedCellsRecorded(from, route);
      return Ok(Found(route, |from|)), recorded;
  }

  /** `a_star` on a maze: a route through open cells, or `Unreachable` exactly
      when none exists. The route is never shorter than the heuristic says,
      and the count of explored cells (every cell ever given a distance) is
      at least one and at most every open cell plus `start`. */
  method AStar(m: Maze, start: Coord, end: Coord) returns (r: Result<Found, SearchError>, ghost recorded: set<Coord>)
    requires Valid(m)
    ensures r.Ok? ==> IsRoute(Moves(m), start, end, r.value.route)
    ensures r.Ok? <==> Reachable(Moves(m), start, end)
    ensures r.Ok? ==> 1 <= r.value.explored <= |OpenCells(m) + {start}|
    ensures r.Ok? ==> H(start, end) <= |r.value.route| - 1
    ensures start == end ==> r.Ok? && r.value.route == [start]
    ensures start in recorded && recorded <= OpenCells(m) + {start}
    ensures forall v :: v in recorded ==> Reachable(Moves(m), start, v)
    ensures r.Ok? ==> r.value.explored == |recorded|
    ensures r.Ok? ==> forall i :: 0 <= i < |r.value.route| ==> r.value.route[i] in recorded
  {
    MovesBounded(m, start);
    r, recorded := Search(Moves(m), start, end, OpenCells(m) + {start});
    if r.Ok? {
      RouteSteps(m, start, end, r.value.route);
      HAdmissible(r.value.route);
    }
  }
}

/** Predecessor maps, walks through the maze, and `reconstruct_route` (src/main.rs). */
module Routes {
  import opened Wrappers
  import opened Coords
  import opened Mazes

  /** The `from` map of both searches: each discovered cell and the cell it
      was reached from, `None` for the start. */
  type Predecessors = map<Coord, Option<Coord>>

  /** The one way `reconstruct_route` fails. */
  datatype SearchError = Unreachable

  /** What both searches return: the route and the number of cells explored. */
  datatype Found = Found(route: seq<Coord>, explored: nat)

  /** `route` follows recorded links: its first cell has no predecessor and
      every later cell records the one before it. */
  predicate Linked(from: Predecessors, route: seq<Coord>)
  {
    && |route| >= 1
    && route[0] in from && from[route[0]] == None
    && forall i :: 0 < i < |route| ==> route[i] in from && from[route[i]] == Some(route[i - 1])
  }

  /** Following a link strictly lowers `rank`, so no chain of links is a cycle. */
  predicate RankedBy(from: Predecessors, rank: map<Coord, nat>)
  {
    forall v :: v in from ==>
      && v in rank
      && (from[v].Some? ==> from[v].value in rank && rank[from[v].value] < rank[v])
  }

  /** Every recorded predecessor is itself recorded. */
  predicate Closed(from: Predecessors)
  {
    forall v :: v in from && from[v].Some? ==> from[v].value in from
  }

  /** `reconstruct_route`: walk the links back from `end` until a cell without
      predecessor, then put the cells in start-to-end order. A cell missing from
      `from` is the source's "no route found" panic. The source would loop
      forever on a cyclic map; both searches build ranked maps. */
  method ReconstructRoute(end: Coord, from: Predecessors, ghost rank: map<Coord, nat>)
    returns (r: Result<seq<Coord>, SearchError>)
    requires RankedBy(from, rank)
    ensures r.Ok? ==> Linked(from, r.value) && r.value[|r.value| - 1] == end
    ensures r.Err? ==> forall route :: Linked(from, route) ==> route[|route| - 1] != end
  {
    var route: seq<Coord> := [];
    var previous: Option<Coord> := Some(end);
    while previous.Some?
      invariant route == [] <==> previous == Some(end)
      invariant route != [] ==> route[|route| - 1] == end && route[0] in from && previous == from[route[0]]
      invariant forall i :: 0 < i < |route| ==> route[i] in from && from[route[i]] == Some(route[i - 1])
      invariant forall chain :: Linked(from, chain) && chain[|chain| - 1] == end ==>
                  |route| <= |chain| && chain[|chain| - |route|..] == route
      decreases if previous.Some? && previous.value in rank then rank[previous.value] + 1 else 0
    {
      var node := previous.value;
      ExtendSuffix(from, end, route, node);
      route := [node] + route;
      if node !in from {
        forall chain | Linked(from, chain)
          ensures chain[|chain| - 1] != end
        {
          LinkedCellsRecorded(from, chain);
        }
        return Err(Unreachable);
      }
      previous := from[node];
    }
    return Ok(route);
  }

  /** One more step of `reconstruct_route`: if `route` is the tail of every
      linked chain ending at `end`, so is `[node] + route`. */
  lemma ExtendSuffix(from: Predecessors, end: Coord, route: seq<Coord>, node: Coord)
    requires route == [] ==> node == end
    requires route != [] ==> route[0] in from && from[route[0]] == Some(node)
    requires forall chain :: Linked(from, chain) && chain[|chain| - 1] == end ==>
               |route| <= |chain| && chain[|chain| - |route|..] == route
    ensures forall chain :: Linked(from, chain) && chain[|chain| - 1] == end ==>
              |route| + 1 <= |chain| && chain[|chain| - |route| - 1..] == [node] + route
  {
    forall chain | Linked(from, chain) && chain[|chain| - 1] == end
      ensures |route| + 1 <= |chain| && chain[|chain| - |route| - 1..] == [node] + route
    {
      var p := |chain| - |route|;
      if route != [] {
        assert chain[p] == route[0];
        assert p >= 1;
        assert chain[p - 1] == node;
      } else {
        assert chain[p - 1] == node;
      }
      assert chain[p - 1..] == [chain[p - 1]] + chain[p..];
    }
  }

  /** Every cell of a linked chain is recorded. */
  lemma LinkedCellsRecorded(from: Predecessors, chain: seq<Coord>)
    requires Linked(from, chain)
    ensures forall i :: 0 <= i < |chain| ==> chain[i] in from
  {
  }

  /** In a closed, ranked map every recorded cell ends a linked chain. */
  lemma {:induction false} LinkedChainExists(from: Predecessors, rank: map<Coord, nat>, v: Coord)
    requires RankedBy(from, rank) && Closed(from) && v in from
    ensures exists chain :: Linked(from, chain) && chain[|chain| - 1] == v
    decreases rank[v]
  {
    if from[v] == None {
      assert Linked(from, [v]);
    } else {
      var u := from[v].value;
      LinkedChainExists(from, rank, u);
      var chain :| Linked(from, chain) && chain[|chain| - 1] == u;
      assert Linked(from, chain + [v]);
    }
  }

  // ---------------------------------------------------------------------------
  // Walks
  // ---------------------------------------------------------------------------

  /** The moves out of each cell of a valid maze: its `neighbours`. Both
      searches only ever see the maze through this function. */
  function Moves(m: Maze): (next: Coord -> seq<Coord>)
    requires Valid(m)
    ensures forall c :: next(c) == Neighbours(m, c)
  {
    c => Neighbours(m, c)
  }

  /** Each cell of `route` is one of the moves out of the cell before it. */
  predicate IsWalk(next: Coord -> seq<Coord>, route: seq<Coord>)
  {
    forall i :: 0 < i < |route| ==> route[i] in next(route[i - 1])
  }

  /** A route from `start` to `end`, as both searches return it. */
  predicate IsRoute(next: Coord -> seq<Coord>, start: Coord, end: Coord, route: seq<Coord>)
  {
    |route| >= 1 && route[0] == start && route[|route| - 1] == end && IsWalk(next, route)
  }

  ghost predicate Reachable(next: Coord -> seq<Coord>, start: Coord, end: Coord)
  {
    exists route :: IsRoute(next, start, end, route)
  }

  /** Every step of a route through a maze is a unit cardinal step onto an
      in-bounds cell that is not a wall. */
  lemma RouteSteps(m: Maze, start: Coord, end: Coord, route: seq<Coord>)
    requires Valid(m) && IsRoute(Moves(m), start, end, route)
    ensures forall i :: 0 < i < |route| ==> Open(m, route[i]) && Adjacent(route[i - 1], route[i])
  {
    forall i | 0 < i < |route|
      ensures Open(m, route[i]) && Adjacent(route[i - 1], route[i])
    {
      assert route[i] in Neighbours(m, route[i - 1]);
    }
  }

  /** No cell of `region` has a move leading outside it. */
  predicate ClosedRegion(next: Coord -> seq<Coord>, region: set<Coord>)
  {
    forall v, n :: v in region && n in next(v) ==> n in region
  }

  /** A walk that starts inside a closed region never leaves it. */
  lemma {:induction false} WalkStaysInRegion(next: Coord -> seq<Coord>, region: set<Coord>, route: seq<Coord>)
    requires ClosedRegion(next, region) && IsWalk(next, route)
    requires |route| >= 1 && route[0] in region
    ensures forall i :: 0 <= i < |route| ==> route[i] in region
    decreases |route|
  {
    if |route| > 1 {
      var init := route[..|route| - 1];
      assert IsWalk(next, init);
      WalkStaysInRegion(next, region, init);
      assert route[|route| - 1] in next(route[|route| - 2]);
    }
  }

  /** So a closed region holding `start` but not `end` shows `end` unreachable. */
  lemma RegionSeparates(next: Coord -> seq<Coord>, region: set<Coord>, start: Coord, end: Coord)
    requires ClosedRegion(next, region) && start in region && end !in region
    ensures !Reachable(next, start, end)
  {
    forall route | IsRoute(next, start, end, route)
      ensures false
    {
      WalkStaysInRegion(next, region, route);
    }
  }

  /** A linked chain in a map whose links are moves and whose only root is
      `start` is a route from `start`. */
  lemma LinkedIsRoute(next: Coord -> seq<Coord>, from: Predecessors, start: Coord, route: seq<Coord>)
    requires Linked(from, route)
    requires start in from && from[start] == None
    requires forall v :: v in from && v != start ==> from[v].Some? && v in next(from[v].value)
    ensures IsRoute(next, start, route[|route| - 1], route)
  {
    forall i | 0 < i < |route|
      ensures route[i] in next(route[i - 1])
    {
      assert from[route[i]] == Some(route[i - 1]);
    }
  }

  /** In a closed, ranked map rooted only at `start` whose links are moves,
      every recorded cell is reachable from `start`. */
  lemma RecordedReachable(next: Coord -> seq<Coord>, from: Predecessors, rank: map<Coord, nat>, start: Coord)
    requires RankedBy(from, rank) && Closed(from)
    requires start in from && from[start] == None
    requires forall v :: v in from && v != start ==> from[v].Some? && v in next(from[v].value)
    ensures forall v :: v in from ==> Reachable(next, start, v)
  {
    forall v | v in from
      ensures Reachable(next, start, v)
    {
      LinkedChainExists(from, rank, v);
      var chain :| Linked(from, chain) && chain[|chain| - 1] == v;
      LinkedIsRoute(next, from, start, chain);
    }
  }

  /** A finite set that holds `start` and every move out of any cell: the
      cells a search can ever discover. */
  ghost predicate Bounded(next: Coord -> seq<Coord>, start: Coord, universe: set<Coord>)
  {
    start in universe && forall c, n :: n in next(c) ==> n in universe
  }

  /** A linked chain that ends at the root is the root alone. */
  lemma RootRoute(from: Predecessors, start: Coord, route: seq<Coord>)
    requires Linked(from, route) && start in from && from[start] == None
    ensures route[|route| - 1] == start ==> route == [start]
  {
    assert |route| > 1 ==> from[route[|route| - 1]] == Some(route[|route| - 2]);
  }

  /** Every move in a maze lands on an open cell. */
  lemma MovesBounded(m: Maze, start: Coord)
    requires Valid(m)
    ensures Bounded(Moves(m), start, OpenCells(m) + {start})
  {
    forall c, n | n in Moves(m)(c)
      ensures n in OpenCells(m)
    {
      assert n in Neighbours(m, c);
    }
  }

  lemma SubsetCardinality<T>(a: set<T>, b: set<T>)
    requires a <= b
    ensures |a| <= |b|
  {
    assert b == a + (b - a);
  }

  lemma SubsetSmaller(a: set<Coord>, b: set<Coord>)
    requires a < b
    ensures |a| < |b|
  {
    assert b - a == {} ==> a == b;
    var k :| k in b - a;
    SubsetCardinality(a, b - {k});
  }

  lemma PrefixStep(s: seq<Coord>, i: nat)
    requires i < |s|
    ensures s[..i + 1] == s[..i] + [s[i]]
  {
  }
}

/** The unguided search `dfs` (src/main.rs): an explicit stack, a visited set and
    a predecessor map. */
module DepthFirst {
  import opened Wrappers
  import opened Coords
  import opened Mazes
  import opened Routes

  /** The body of the neighbour loop: an unvisited neighbour is pushed and its
      predecessor becomes `current`, replacing whatever an earlier discovery
      recorded; a visited neighbour is ignored. */
  function Discover(stack: seq<Coord>, from: Predecessors, visited: set<Coord>, current: Coord, n: Coord)
    : (r: (seq<Coord>, Predecessors))
    ensures r.1.Keys == from.Keys + (if n in visited then {} else {n})
    ensures n in visited ==> r == (stack, from)
    ensures n !in visited ==> r.0 == stack + [n] && r.1[n] == Some(current)
    ensures forall v :: v in from && (v in visited || v != n) ==> r.1[v] == from[v]
  {
    if n in visited then (stack, from) else (stack + [n], from[n := Some(current)])
  }

  /** How many stack entries are already visited. */
  function VisitedEntries(stack: seq<Coord>, visited: set<Coord>): nat
  {
    if |stack| == 0 then 0
    else VisitedEntries(stack[..|stack| - 1], visited) + (if stack[|stack| - 1] in visited then 1 else 0)
  }

  // ---------------------------------------------------------------------------
  // The loop invariant, in parts
  // ---------------------------------------------------------------------------

  /** Only `start` lacks a predecessor; every other recorded cell was reached
      by one step from a visited cell. */
  ghost predicate Links(next: Coord -> seq<Coord>, start: Coord, from: Predecessors, visited: set<Coord>)
  {
    && start in from && from[start] == None
    && forall v {:trigger from[v]} :: v in from && v != start ==>
         from[v].Some? && from[v].value in visited && v in next(from[v].value)
  }

  /** `order` numbers the visited cells in visit order; a visited cell's
      predecessor was visited before it. */
  ghost predicate Ordered(start: Coord, from: Predecessors, visited: set<Coord>, order: map<Coord, nat>)
    requires forall v :: v in from && v != start && v in visited ==> from[v].Some? && from[v].value in visited
  {
    && order.Keys == visited
    && (forall v :: v in order ==> order[v] < |visited|)
    && forall v {:trigger from[v]} :: v in from && v in visited && v != start ==> order[from[v].value] < order[v]
  }

  /** Stack entries are recorded, and every recorded cell is visited or still stacked. */
  ghost predicate Tracked(universe: set<Coord>, from: Predecessors, visited: set<Coord>, stack: seq<Coord>)
  {
    && visited <= from.Keys <= universe
    && (forall i :: 0 <= i < |stack| ==> stack[i] in from)
    && (forall v :: v in from ==> v in visited || v in stack)
  }

  /** Every neighbour of a visited cell other than `end` and `skip` is visited or stacked. */
  ghost predicate Covered(next: Coord -> seq<Coord>, end: Coord, skip: Coord, visited: set<Coord>, stack: seq<Coord>)
  {
    forall v, n :: v in visited && v != end && v != skip && n in next(v) ==> n in visited || n in stack
  }

  ghost predicate DfsState(next: Coord -> seq<Coord>, start: Coord, end: Coord, universe: set<Coord>, from: Predecessors,
                           visited: set<Coord>, stack: seq<Coord>, order: map<Coord, nat>)
  {
    && Bounded(next, start, universe)
    && Links(next, start, from, visited)
    && Ordered(start, from, visited, order)
    && Tracked(universe, from, visited, stack)
    && Covered(next, end, end, visited, stack)
    && (visited == {} ==> stack == [start])
    && (visited != {} ==> start in visited)
  }

  /** Popping `current` and marking it visited keeps the invariant, except
      that `current`'s neighbours are not yet covered; and it makes progress. */
  lemma PopKeeps(next: Coord -> seq<Coord>, start: Coord, end: Coord, universe: set<Coord>, from: Predecessors,
                 visited: set<Coord>, stack: seq<Coord>, order: map<Coord, nat>,
                 current: Coord, visited': set<Coord>, stack': seq<Coord>, order': map<Coord, nat>)
    requires DfsState(next, start, end, universe, from, visited, stack, order)
    requires stack == stack' + [current]
    requires visited' == visited + {current}
    requires order' == if current in visited then order else order[current := |visited|]
    ensures Links(next, start, from, visited') && Ordered(start, from, visited', order')
    ensures Tracked(universe, from, visited', stack')
    ensures Covered(next, end, current, visited', stack')
    ensures start in visited' && current in visited'
    ensures current !in visited ==> universe - visited' < universe - visited
    ensures current in visited ==> visited' == visited && VisitedEntries(stack', visited) < VisitedEntries(stack, visited)
  {
    assert stack[..|stack| - 1] == stack';
    assert current == stack[|stack| - 1];
    assert current in from;
    forall v | v in from
      ensures v in visited' || v in stack'
    {
      assert v in visited || v in stack;
    }
    forall v, n | v in visited' && v != end && v != current && n in next(v)
      ensures n in visited' || n in stack'
    {
      assert v in visited;
      assert n in visited || n in stack;
      assert n in stack ==> n == current || n in stack';
    }
    forall i | 0 <= i < |stack'|
      ensures stack'[i] in from
    {
      assert stack'[i] == stack[i];
    }
  }

  /** The invariant of the neighbour loop: `done` are the neighbours handled
      so far, and no visited entry was added to the stack. */
  ghost predicate Pushing(next: Coord -> seq<Coord>, start: Coord, end: Coord, universe: set<Coord>,
                          current: Coord, visited: set<Coord>, order: map<Coord, nat>, entries: nat,
                          stack: seq<Coord>, from: Predecessors, done: seq<Coord>)
  {
    && Bounded(next, start, universe)
    && current in visited && start in visited
    && Links(next, start, from, visited) && Ordered(start, from, visited, order)
    && Tracked(universe, from, visited, stack)
    && Covered(next, end, current, visited, stack)
    && (forall k :: k in done ==> k in visited || k in stack)
    && VisitedEntries(stack, visited) == entries
  }

  /** The neighbour loop of `dfs`: pushes the unvisited neighbours of `current`
      in neighbour order and records `current` as their predecessor. */
  method PushNeighbours(next: Coord -> seq<Coord>, ghost start: Coord, ghost end: Coord, ghost universe: set<Coord>,
                        current: Coord, visited: set<Coord>, stack: seq<Coord>, from: Predecessors,
                        ghost order: map<Coord, nat>)
    returns (stack': seq<Coord>, from': Predecessors)
    requires Pushing(next, start, end, universe, current, visited, order, VisitedEntries(stack, visited), stack, from, [])
    ensures Links(next, start, from', visited) && Ordered(start, from', visited, order)
    ensures Tracked(universe, from', visited, stack')
    ensures Covered(next, end, end, visited, stack')
    ensures VisitedEntries(stack', visited) == VisitedEntries(stack, visited)
    ensures forall n :: n in next(current) ==> n in visited || n in stack'
  {
    var neighbours := next(current);
    ghost var entries := VisitedEntries(stack, visited);
    stack', from' := stack, from;
    var i := 0;
    while i < |neighbours|
      invariant i <= |neighbours|
      invariant Pushing(next, start, end, universe, current, visited, order, entries, stack', from', neighbours[..i])
    {
      var step := Discover(stack', from', visited, current, neighbours[i]);
      DiscoverKeeps(next, start, end, universe, current, visited, order, entries,
                    stack', from', neighbours[..i], neighbours[i], step.0, step.1);
      PrefixStep(neighbours, i);
      stack', from' := step.0, step.1;
      i := i + 1;
    }
    assert neighbours[..i] == neighbours;
    CoverCurrent(next, end, current, visited, stack', neighbours);
  }

  /** Once every neighbour of `current` is visited or stacked, `current` is covered too. */
  lemma CoverCurrent(next: Coord -> seq<Coord>, end: Coord, current: Coord, visited: set<Coord>,
                     stack: seq<Coord>, neighbours: seq<Coord>)
    requires neighbours == next(current)
    requires Covered(next, end, current, visited, stack)
    requires forall k :: k in neighbours ==> k in visited || k in stack
    ensures Covered(next, end, end, visited, stack)
  {
  }

  /** One discovery keeps the invariant of the neighbour loop. */
  lemma DiscoverKeeps(next: Coord -> seq<Coord>, start: Coord, end: Coord, universe: set<Coord>,
                      current: Coord, visited: set<Coord>, order: map<Coord, nat>, entries: nat,
                      stack: seq<Coord>, from: Predecessors, done: seq<Coord>,
                      n: Coord, stack': seq<Coord>, from': Predecessors)
    requires n in next(current)
    requires Pushing(next, start, end, universe, current, visited, order, entries, stack, from, done)
    requires (stack', from') == Discover(stack, from, visited, current, n)
    ensures Pushing(next, start, end, universe, current, visited, order, entries, stack', from', done + [n])
  {
    if n !in visited {
      assert stack'[..|stack'| - 1] == stack;
      forall i | 0 <= i < |stack'|
        ensures stack'[i] in from'
      {
        if i < |stack| {
          assert stack'[i] == stack[i];
        }
      }
      forall k | k in done + [n]
        ensures k in visited || k in stack'
      {
        if k != n {
          assert k in done;
        }
      }
    }
  }

  /** The rank that orders the final predecessor map: visit index, or past
      every visit index for cells discovered but never visited. */
  ghost function VisitRank(from: Predecessors, visited: set<Coord>, order: map<Coord, nat>): map<Coord, nat>
  {
    map v | v in from :: if v in order then order[v] else |visited|
  }

  /** What the state at loop exit gives `reconstruct_route` and the caller. */
  lemma DfsExit(next: Coord -> seq<Coord>, start: Coord, end: Coord, universe: set<Coord>, from: Predecessors,
                visited: set<Coord>, stack: seq<Coord>, order: map<Coord, nat>)
    requires DfsState(next, start, end, universe, from, visited, stack, order)
    requires stack == [] || end in visited
    ensures RankedBy(from, VisitRank(from, visited, order)) && Closed(from)
    ensures start in visited && visited <= universe
    ensures start in from && from[start] == None
    ensures end !in from ==> !Reachable(next, start, end)
  {
    if end !in from {
      RegionSeparates(next, visited, start, end);
    }
  }

  /** The search loop of `dfs` over any move function: the route it finds and
      the number of visited cells. It fails exactly when `end` cannot be
      reached from `start`. */
  method Search(next: Coord -> seq<Coord>, start: Coord, end: Coord, ghost universe: set<Coord>)
    returns (r: Result<Found, SearchError>, ghost recorded: set<Coord>)
    requires Bounded(next, start, universe)
    ensures r.Ok? ==> IsRoute(next, start, end, r.value.route)
    ensures r.Ok? <==> Reachable(next, start, end)
    ensures r.Ok? ==> 1 <= r.value.explored <= |universe|
    ensures start == end ==> r.Ok? && r.value.route == [start]
    ensures start in recorded && recorded <= universe
    ensures forall v :: v in recorded ==> Reachable(next, start, v)
    ensures r.Ok? ==> r.value.explored == |recorded|
    ensures r.Ok? ==> forall i :: 0 <= i < |r.value.route| ==> r.value.route[i] in recorded
  {
    var from: Predecessors := map[start := None];
    var visited: set<Coord> := {};
    var stack: seq<Coord> := [start];
    // the visit index of every visited cell
    ghost var order: map<Coord, nat> := map[];

    while stack != []
      invariant DfsState(next, start, end, universe, from, visited, stack, order)
      decreases universe - visited, VisitedEntries(stack, visited)
    {
      var current := stack[|stack| - 1];
      var stack' := stack[..|stack| - 1];
      assert stack == stack' + [current];
      var visited' := visited + {current};
      ghost var order' := if current in visited then order else order[current := |visited|];
      PopKeeps(next, start, end, universe, from, visited, stack, order, current, visited', stack', order');
      stack, visited, order := stack', visited', order';

      if current == end {
        break;
      }

      stack, from := PushNeighbours(next, start, end, universe, current, visited, stack, from, order);
    }

    r, recorded := Finish(next, start, end, universe, from, visited, stack, order);
  }

  /** The tail of `dfs`: rebuild the route to `end` from the final predecessor
      map and report how many cells were visited. */
  method Finish(next: Coord -> seq<Coord>, start: Coord, end: Coord, ghost universe: set<Coord>,
                from: Predecessors, visited: set<Coord>, ghost stack: seq<Coord>, ghost order: map<Coord, nat>)
    returns (r: Result<Found, SearchError>, ghost recorded: set<Coord>)
    requires DfsState(next, start, end, universe, from, visited, stack, order)
    requires stack == [] || end in visited
    ensures r.Ok? ==> IsRoute(next, start, end, r.value.route)
    ensures r.Ok? <==> Reachable(next, start, end)
    ensures r.Ok? ==> 1 <= r.value.explored <= |universe|
    ensures start == end ==> r.Ok? && r.value.route == [start]
    ensures start in recorded && recorded <= universe
    ensures forall v :: v in recorded ==> Reachable(next, start, v)
    ensures r.Ok? ==> r.value.explored == |recorded|
    ensures r.Ok? ==> forall i :: 0 <= i < |r.value.route| ==> r.value.route[i] in recorded
  {
    recorded := visited;
    DfsExit(next, start, end, universe, from, visited, stack, order);
    RecordedReachable(next, from, VisitRank(from, visited, order), start);
    var result := ReconstructRoute(end, from, VisitRank(from, visited, order));
    if end in from {
      LinkedChainExists(from, VisitRank(from, visited, order), end);
    }
    match result
    case Err(e) =>
      return Err(e), recorded;
    case Ok(route) =>
      LinkedIsRoute(next, from, start, route);
      RootRoute(from, start, route);
      SubsetCardinality(visited, universe);
      forall i | 0 <= i < |route|
        ensures route[i] in visited
      {
        if i < |route| - 1 {
          assert from[route[i + 1]] == Some(route[i]);
        }
      }
      return Ok(Found(route, |visited|)), recorded;
  }

  /** `dfs` on a maze: a route through open cells, or `Unreachable` exactly
      when none exists; it visits at least one and at most every open cell
      (plus `start`, which may be a wall). */
  method Dfs(m: Maze, start: Coord, end: Coord) returns (r: Result<Found, SearchError>, ghost recorded: set<Coord>)
    requires Valid(m)
    ensures r.Ok? ==> IsRoute(Moves(m), start, end, r.value.route)
    ensures r.Ok? <==> Reachable(Moves(m), start, end)
    ensures r.Ok? ==> 1 <= r.value.explored <= |OpenCells(m) + {start}|
    ensures start == end ==> r.Ok? && r.value.route == [start]
    ensures start in recorded && recorded <= OpenCells(m) + {start}
    ensures forall v :: v in recorded ==> Reachable(Moves(m), start, v)
    ensures r.Ok? ==> r.value.explored == |recorded|
    ensures r.Ok? ==> forall i :: 0 <= i < |r.value.route| ==> r.value.route[i] in recorded
  {
    MovesBounded(m, start);
    r, recorded := Search(Moves(m), start, end, OpenCells(m) + {start});
  }
}

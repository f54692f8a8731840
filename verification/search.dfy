/** `findPath` and `reconstructPath`: A* over a grid with unit edge cost,
    an open set polled by lowest `f`, a closed set that is never re-opened and
    a `cameFrom` map of predecessors. */
module Search {
  import opened Wrappers
  import opened Grid

  /** The search fields of one node during one search: cost so far `g`,
      heuristic `h` and priority `f`. They are the `g`, `h` and `f` fields
      of `Nodes.Node`, kept per search in a map instead of in the shared
      node objects; `Improve` sets them as `Nodes.Rescore` does, on
      unbounded integers. */
  datatype Scores = Scores(g: int, h: int, f: int)

  /** A route as `findPath` returns it: from `start` to `goal`, each cell
      4-adjacent to the one before, and every cell after `start` inside the
      grid and not blocked. */
  predicate IsPath(world: World, start: Pos, goal: Pos, path: seq<Pos>)
    requires WellFormed(world)
  {
    && |path| > 0 && path[0] == start && path[|path| - 1] == goal
    && InBounds(world, start)
    && forall i :: 0 < i < |path| ==>
         InBounds(world, path[i]) && Free(world, path[i]) && Adjacent(path[i - 1], path[i])
  }

  /** Some route leads from `start` to `c`: `c` lies in the connected
      component of free cells that `start` opens onto. */
  ghost predicate Reachable(world: World, start: Pos, c: Pos)
    requires WellFormed(world)
  {
    exists p :: IsPath(world, start, c, p)
  }

  /** No route is shorter, in steps, than the Manhattan distance of its ends. */
  lemma PathLengthBound(world: World, start: Pos, goal: Pos, path: seq<Pos>)
    requires WellFormed(world) && IsPath(world, start, goal, path)
    ensures |path| - 1 >= Manhattan(start, goal)
  {
    assert IsWalk(path);
    ManhattanAdmissible(path);
  }

  /** The poll of the open set: the index of the first entry of lowest `f`. */
  method ExtractMin(open: seq<Pos>, scores: map<Pos, Scores>) returns (k: nat)
    requires |open| > 0
    requires forall i :: 0 <= i < |open| ==> open[i] in scores
    ensures k < |open|
    ensures forall j :: 0 <= j < |open| ==> scores[open[k]].f <= scores[open[j]].f
    ensures forall j :: 0 <= j < k ==> scores[open[k]].f < scores[open[j]].f
  {
    k := 0;
    for i := 1 to |open|
      invariant k < i
      invariant forall j :: 0 <= j < i ==> scores[open[k]].f <= scores[open[j]].f
      invariant forall j :: 0 <= j < k ==> scores[open[k]].f < scores[open[j]].f
    {
      if scores[open[i]].f < scores[open[k]].f {
        k := i;
      }
    }
  }

  /** Removing the entry at `k` from a list without duplicates removes
      exactly that cell. */
  lemma RemoveAt(s: seq<Pos>, k: nat)
    requires Distinct(s) && k < |s|
    ensures Distinct(s[..k] + s[k + 1..])
    ensures forall x :: x in s[..k] + s[k + 1..] <==> x in s && x != s[k]
  {
    var r := s[..k] + s[k + 1..];
    forall i, j | 0 <= i < j < |r| ensures r[i] != r[j] {
      var i' := if i < k then i else i + 1;
      var j' := if j < k then j else j + 1;
      assert r[i] == s[i'] && r[j] == s[j'];
    }
    forall x ensures x in r <==> x in s && x != s[k] {
      if x in r {
        var i :| 0 <= i < |r| && r[i] == x;
        assert x == s[if i < k then i else i + 1];
      }
      if x in s && x != s[k] {
        var i :| 0 <= i < |s| && s[i] == x;
        assert r[if i < k then i else i - 1] == x;
      }
    }
  }

  /** `Collections.reverse`: swaps the two ends of the list towards the middle. */
  method Reverse<T>(s: seq<T>) returns (r: seq<T>)
    ensures |r| == |s|
    ensures forall i :: 0 <= i < |s| ==> r[i] == s[|s| - 1 - i]
  {
    r := s;
    var n := |s|;
    var i := 0;
    while i < n / 2
      invariant |r| == n && 0 <= i <= n / 2
      invariant forall k :: 0 <= k < i ==> r[k] == s[n - 1 - k] && r[n - 1 - k] == s[k]
      invariant forall k :: i <= k < n - i ==> r[k] == s[k]
    {
      r := r[i := r[n - 1 - i]][n - 1 - i := r[i]];
      i := i + 1;
    }
  }

  /** Every predecessor carries a rank, and a ranked key's predecessor has a
      strictly smaller rank: a witness that the chains of `cameFrom` have no
      cycle. In `findPath` the rank of a closed node is the number of nodes
      closed before it. */
  ghost predicate RankedBy(cameFrom: map<Pos, Pos>, rank: map<Pos, nat>) {
    forall k {:trigger cameFrom[k]} :: k in cameFrom ==> cameFrom[k] in rank && (k in rank ==> rank[cameFrom[k]] < rank[k])
  }

  /** `reconstructPath`: follows `cameFrom` back from `current` to the one
      cell with no entry, then reverses the list. The result is that chain of
      predecessors, in order, with no cell repeated. */
  method ReconstructPath(cameFrom: map<Pos, Pos>, current: Pos, ghost rank: map<Pos, nat>)
    returns (path: seq<Pos>)
    requires current in rank && RankedBy(cameFrom, rank)
    ensures |path| > 0 && path[|path| - 1] == current && path[0] !in cameFrom
    ensures forall i :: 0 < i < |path| ==> path[i] in cameFrom && cameFrom[path[i]] == path[i - 1]
    ensures Distinct(path)
  {
    var walk: seq<Pos> := [];
    var temp: Option<Pos> := Some(current);
    while temp.Some?
      invariant temp.Some? ==> temp.value in rank
      invariant walk == [] ==> temp == Some(current)
      invariant walk != [] ==> walk[0] == current
      invariant forall i :: 0 <= i < |walk| ==> walk[i] in rank
      invariant forall i :: 0 <= i < |walk| - 1 ==> walk[i] in cameFrom && cameFrom[walk[i]] == walk[i + 1]
      invariant walk != [] && temp.Some? ==>
                  walk[|walk| - 1] in cameFrom && cameFrom[walk[|walk| - 1]] == temp.value
      invariant walk != [] && temp.None? ==> walk[|walk| - 1] !in cameFrom
      invariant forall i, j :: 0 <= i < j < |walk| ==> rank[walk[j]] < rank[walk[i]]
      invariant temp.Some? ==> forall i :: 0 <= i < |walk| ==> rank[temp.value] < rank[walk[i]]
      decreases if temp.Some? then rank[temp.value] + 1 else 0
    {
      var t := temp.value;
      walk := walk + [t];
      temp := if t in cameFrom then Some(cameFrom[t]) else None;
    }
    path := Reverse(walk);
    forall i, j | 0 <= i < j < |path| ensures path[i] != path[j] {
      assert rank[walk[|walk| - 1 - i]] < rank[walk[|walk| - 1 - j]];
    }
  }

  /** The state of one search, as `findPath` keeps it between polls. */
  ghost predicate SearchInv(world: World, start: Pos, goal: Pos, open: seq<Pos>, closed: set<Pos>,
                            cameFrom: map<Pos, Pos>, scores: map<Pos, Scores>,
                            rank: map<Pos, nat>, polled: seq<Pos>)
  {
    && WellFormed(world) && InBounds(world, start) && InBounds(world, goal)
    && OpenInv(world, goal, open, closed, scores)
    && ClosedInv(world, goal, closed, polled)
    && Discovered(start, open, closed, cameFrom)
    && Links(world, closed, cameFrom)
    && Ranks(closed, cameFrom, rank, |polled|)
    && Costs(start, cameFrom, scores)
  }

  /** The open set: inside the grid, no duplicates, nothing closed, and
      f == g + h with h the Manhattan distance to `goal` for each entry. */
  ghost predicate OpenInv(world: World, goal: Pos, open: seq<Pos>, closed: set<Pos>, scores: map<Pos, Scores>) {
    && (forall i :: 0 <= i < |open| ==> InBounds(world, open[i]) && open[i] !in closed)
    && Distinct(open)
    && (forall i :: 0 <= i < |open| ==>
          open[i] in scores && scores[open[i]].h == Manhattan(open[i], goal)
          && scores[open[i]].f == scores[open[i]].g + scores[open[i]].h)
  }

  /** The closed set: exactly the cells polled so far, each polled once;
      the goal is never closed. */
  ghost predicate ClosedInv(world: World, goal: Pos, closed: set<Pos>, polled: seq<Pos>) {
    && Distinct(polled)
    && (forall i :: 0 <= i < |polled| ==> InBounds(world, polled[i]))
    && (forall c :: c in closed <==> c in polled)
    && goal !in closed
  }

  /** `start` is the first cell closed, and every other discovered cell was
      discovered from a predecessor. */
  ghost predicate Discovered(start: Pos, open: seq<Pos>, closed: set<Pos>, cameFrom: map<Pos, Pos>) {
    && (start in closed || (closed == {} && open == [start]))
    && start !in cameFrom
    && (forall i :: 0 <= i < |open| ==> open[i] == start || open[i] in cameFrom)
    && (forall c :: c in closed ==> c == start || c in cameFrom)
  }

  /** `cameFrom` only maps a free cell to a closed 4-adjacent cell. */
  ghost predicate Links(world: World, closed: set<Pos>, cameFrom: map<Pos, Pos>)
    requires WellFormed(world)
  {
    forall k {:trigger cameFrom[k]} :: k in cameFrom ==>
      InBounds(world, k) && Free(world, k) && Adjacent(cameFrom[k], k) && cameFrom[k] in closed
  }

  /** Every step costs 1: `start` costs nothing, and a cell with a
      predecessor costs one more than it. So a recorded cost is the length
      of the cell's predecessor chain. */
  ghost predicate Costs(start: Pos, cameFrom: map<Pos, Pos>, scores: map<Pos, Scores>) {
    && start in scores && scores[start].g == 0
    && forall k {:trigger cameFrom[k]} :: k in cameFrom ==>
         k in scores && cameFrom[k] in scores && scores[k].g == scores[cameFrom[k]].g + 1
  }

  /** Each closed cell has its own rank below `count`, and a closed cell's
      predecessor was closed before it. */
  ghost predicate Ranks(closed: set<Pos>, cameFrom: map<Pos, Pos>, rank: map<Pos, nat>, count: nat) {
    && rank.Keys == closed
    && (forall c :: c in rank ==> rank[c] < count)
    && (forall c, d :: c in rank && d in rank && c != d ==> rank[c] != rank[d])
    && RankedBy(cameFrom, rank)
  }

  /** Every free neighbour of a cell of `done` has been discovered. */
  ghost predicate Surrounded(world: World, done: set<Pos>, closed: set<Pos>, open: seq<Pos>)
    requires WellFormed(world)
  {
    forall c, d: nat :: c in done && d < 4 && InBounds(world, Step(c, d)) && Free(world, Step(c, d)) ==>
      Step(c, d) in closed || Step(c, d) in open
  }

  /** A set that holds `start` but not `goal` and that contains every free
      neighbour of its members cannot be left by a route: no route joins
      `start` to `goal`. */
  lemma NoPathLeaves(world: World, start: Pos, goal: Pos, closed: set<Pos>)
    requires WellFormed(world) && start in closed && goal !in closed
    requires Surrounded(world, closed, closed, [])
    ensures forall p :: !IsPath(world, start, goal, p)
  {
    forall p | IsPath(world, start, goal, p) ensures false {
      PathStaysInside(world, start, goal, closed, p, |p| - 1);
    }
  }

  lemma {:induction false} PathStaysInside(world: World, start: Pos, goal: Pos, closed: set<Pos>,
                                           p: seq<Pos>, k: nat)
    requires WellFormed(world) && start in closed
    requires Surrounded(world, closed, closed, [])
    requires IsPath(world, start, goal, p) && k < |p|
    ensures p[k] in closed
  {
    if k > 0 {
      PathStaysInside(world, start, goal, closed, p, k - 1);
      var d := AdjacentIsStep(p[k - 1], p[k]);
      assert InBounds(world, Step(p[k - 1], d)) && Free(world, Step(p[k - 1], d));
    }
  }

  lemma InitialState(world: World, start: Pos, goal: Pos)
    requires WellFormed(world) && InBounds(world, start) && InBounds(world, goal)
    ensures var h := Manhattan(start, goal);
      SearchInv(world, start, goal, [start], {}, map[], map[start := Scores(0, h, 0 + h)], map[], [])
  {
  }

  /** Polling `open[k]` and closing it keeps the invariant: the new closed
      cell is ranked after every cell closed before it. */
  lemma PollAndClose(world: World, start: Pos, goal: Pos, open: seq<Pos>, closed: set<Pos>,
                     cameFrom: map<Pos, Pos>, scores: map<Pos, Scores>, rank: map<Pos, nat>,
                     polled: seq<Pos>, k: nat,
                     open': seq<Pos>, closed': set<Pos>, rank': map<Pos, nat>, polled': seq<Pos>)
    requires SearchInv(world, start, goal, open, closed, cameFrom, scores, rank, polled)
    requires Surrounded(world, closed, closed, open)
    requires k < |open| && open[k] != goal
    requires open' == open[..k] + open[k + 1..] && closed' == closed + {open[k]}
    requires rank' == rank[open[k] := |polled|] && polled' == polled + [open[k]]
    ensures SearchInv(world, start, goal, open', closed', cameFrom, scores, rank', polled')
    ensures Surrounded(world, closed' - {open[k]}, closed', open')
    ensures open[k] in closed' && open[k] in scores
    ensures |polled'| <= Rows(world) * Cols(world)
  {
    var current := open[k];
    PollOpen(world, goal, open, closed, scores, k);
    PollClosed(world, goal, closed, polled, current);
    PollDiscovered(start, open, closed, cameFrom, k);
    PollLinks(world, closed, cameFrom, current);
    CloseRanked(cameFrom, rank, closed, current, |polled|);
    PollSurrounded(world, closed, open, k);
    assert (closed + {current}) - {current} == closed;
    DistinctCellsBound(world, polled + [current]);
  }

  lemma PollOpen(world: World, goal: Pos, open: seq<Pos>, closed: set<Pos>, scores: map<Pos, Scores>, k: nat)
    requires OpenInv(world, goal, open, closed, scores) && k < |open|
    ensures OpenInv(world, goal, open[..k] + open[k + 1..], closed + {open[k]}, scores)
    ensures open[k] in scores && InBounds(world, open[k]) && open[k] !in closed
  {
    RemoveAt(open, k);
  }

  lemma PollClosed(world: World, goal: Pos, closed: set<Pos>, polled: seq<Pos>, current: Pos)
    requires ClosedInv(world, goal, closed, polled)
    requires InBounds(world, current) && current !in closed && current != goal
    ensures ClosedInv(world, goal, closed + {current}, polled + [current])
  {
    var polled' := polled + [current];
    forall i, j | 0 <= i < j < |polled'| ensures polled'[i] != polled'[j] {
      if j == |polled| {
        assert polled'[i] in closed;
      }
    }
  }

  lemma PollDiscovered(start: Pos, open: seq<Pos>, closed: set<Pos>, cameFrom: map<Pos, Pos>, k: nat)
    requires Discovered(start, open, closed, cameFrom) && Distinct(open) && k < |open|
    ensures Discovered(start, open[..k] + open[k + 1..], closed + {open[k]}, cameFrom)
  {
    RemoveAt(open, k);
    if closed == {} {
      assert open == [start];
    }
  }

  lemma PollLinks(world: World, closed: set<Pos>, cameFrom: map<Pos, Pos>, current: Pos)
    requires WellFormed(world) && Links(world, closed, cameFrom)
    ensures Links(world, closed + {current}, cameFrom)
  {
  }

  /** Closing a cell with a rank above every earlier one keeps predecessor
      ranks strictly increasing. */
  lemma CloseRanked(cameFrom: map<Pos, Pos>, rank: map<Pos, nat>, closed: set<Pos>, current: Pos, n: nat)
    requires Ranks(closed, cameFrom, rank, n) && current !in closed
    requires forall k {:trigger cameFrom[k]} :: k in cameFrom ==> cameFrom[k] in closed
    ensures Ranks(closed + {current}, cameFrom, rank[current := n], n + 1)
  {
    var rank' := rank[current := n];
    forall k | k in cameFrom
      ensures cameFrom[k] in rank' && (k in rank' ==> rank'[cameFrom[k]] < rank'[k])
    {
      assert cameFrom[k] in closed;
      assert rank'[cameFrom[k]] == rank[cameFrom[k]] < n;
    }
  }

  /** Moving the polled cell from the open to the closed set keeps every
      closed cell surrounded. */
  lemma PollSurrounded(world: World, closed: set<Pos>, open: seq<Pos>, k: nat)
    requires WellFormed(world) && Distinct(open) && k < |open|
    requires Surrounded(world, closed, closed, open)
    ensures Surrounded(world, closed, closed + {open[k]}, open[..k] + open[k + 1..])
  {
    RemoveAt(open, k);
  }

  /** Recording `current` as the predecessor of a free, unclosed neighbour
      (and opening the neighbour if it was not open) keeps the invariant. */
  lemma Discover(world: World, start: Pos, goal: Pos, open: seq<Pos>, closed: set<Pos>,
                 cameFrom: map<Pos, Pos>, scores: map<Pos, Scores>, done: set<Pos>, rank: map<Pos, nat>,
                 polled: seq<Pos>, current: Pos, neighbor: Pos, g: int,
                 open': seq<Pos>, cameFrom': map<Pos, Pos>, scores': map<Pos, Scores>)
    requires SearchInv(world, start, goal, open, closed, cameFrom, scores, rank, polled)
    requires Surrounded(world, done, closed, open)
    requires current in closed && Adjacent(current, neighbor)
    requires InBounds(world, neighbor) && Free(world, neighbor) && neighbor !in closed
    requires current in scores && g == scores[current].g + 1
    requires open' == if neighbor in open then open else open + [neighbor]
    requires cameFrom' == cameFrom[neighbor := current]
    requires scores' == scores[neighbor := Scores(g, Manhattan(neighbor, goal), g + Manhattan(neighbor, goal))]
    ensures SearchInv(world, start, goal, open', closed, cameFrom', scores', rank, polled)
    ensures Surrounded(world, done, closed, open')
    ensures forall x :: x in open ==> x in open'
    ensures neighbor in open'
  {
    DiscoverOpen(world, goal, open, closed, scores, neighbor, g);
    DiscoverLinks(world, start, open, closed, cameFrom, rank, polled, current, neighbor);
    DiscoverCosts(start, closed, cameFrom, scores, current, neighbor, g, Manhattan(neighbor, goal));
    SurroundedGrows(world, done, closed, open, open');
  }

  lemma DiscoverOpen(world: World, goal: Pos, open: seq<Pos>, closed: set<Pos>, scores: map<Pos, Scores>,
                     neighbor: Pos, g: int)
    requires OpenInv(world, goal, open, closed, scores)
    requires InBounds(world, neighbor) && neighbor !in closed
    ensures var h := Manhattan(neighbor, goal);
      OpenInv(world, goal, if neighbor in open then open else open + [neighbor], closed,
              scores[neighbor := Scores(g, h, g + h)])
  {
    var open' := if neighbor in open then open else open + [neighbor];
    assert Distinct(open') by {
      if neighbor !in open {
        forall i, j | 0 <= i < j < |open'| ensures open'[i] != open'[j] {
          if j == |open| {
            assert open'[i] in open;
          }
        }
      }
    }
  }

  lemma DiscoverLinks(world: World, start: Pos, open: seq<Pos>, closed: set<Pos>,
                      cameFrom: map<Pos, Pos>, rank: map<Pos, nat>, polled: seq<Pos>,
                      current: Pos, neighbor: Pos)
    requires WellFormed(world)
    requires Discovered(start, open, closed, cameFrom) && Links(world, closed, cameFrom)
    requires Ranks(closed, cameFrom, rank, |polled|)
    requires current in closed && Adjacent(current, neighbor) && neighbor != start
    requires InBounds(world, neighbor) && Free(world, neighbor) && neighbor !in closed
    ensures var open' := if neighbor in open then open else open + [neighbor];
      && Discovered(start, open', closed, cameFrom[neighbor := current])
      && Links(world, closed, cameFrom[neighbor := current])
      && Ranks(closed, cameFrom[neighbor := current], rank, |polled|)
  {
    DiscoverReached(start, open, closed, cameFrom, current, neighbor);
    DiscoverLinked(world, closed, cameFrom, current, neighbor);
    DiscoverRanked(closed, cameFrom, rank, |polled|, current, neighbor);
  }

  lemma DiscoverReached(start: Pos, open: seq<Pos>, closed: set<Pos>, cameFrom: map<Pos, Pos>,
                        current: Pos, neighbor: Pos)
    requires Discovered(start, open, closed, cameFrom)
    requires current in closed && neighbor != start
    ensures Discovered(start, if neighbor in open then open else open + [neighbor], closed, cameFrom[neighbor := current])
  {
  }

  lemma DiscoverLinked(world: World, closed: set<Pos>, cameFrom: map<Pos, Pos>, current: Pos, neighbor: Pos)
    requires WellFormed(world) && Links(world, closed, cameFrom)
    requires current in closed && Adjacent(current, neighbor)
    requires InBounds(world, neighbor) && Free(world, neighbor)
    ensures Links(world, closed, cameFrom[neighbor := current])
  {
  }

  lemma DiscoverRanked(closed: set<Pos>, cameFrom: map<Pos, Pos>, rank: map<Pos, nat>, count: nat,
                       current: Pos, neighbor: Pos)
    requires Ranks(closed, cameFrom, rank, count)
    requires current in closed && neighbor !in closed
    ensures Ranks(closed, cameFrom[neighbor := current], rank, count)
  {
  }

  /** The neighbour's new cost is one more than that of its new
      predecessor; no other cost or link changes. */
  lemma DiscoverCosts(start: Pos, closed: set<Pos>, cameFrom: map<Pos, Pos>, scores: map<Pos, Scores>,
                      current: Pos, neighbor: Pos, g: int, h: int)
    requires Costs(start, cameFrom, scores)
    requires forall k {:trigger cameFrom[k]} :: k in cameFrom ==> cameFrom[k] in closed
    requires current in closed && neighbor !in closed && neighbor != start
    requires current in scores && g == scores[current].g + 1
    ensures Costs(start, cameFrom[neighbor := current], scores[neighbor := Scores(g, h, g + h)])
  {
    var cameFrom', scores' := cameFrom[neighbor := current], scores[neighbor := Scores(g, h, g + h)];
    forall k | k in cameFrom'
      ensures k in scores' && cameFrom'[k] in scores' && scores'[k].g == scores'[cameFrom'[k]].g + 1
    {
      if k != neighbor {
        assert cameFrom[k] in closed;
      }
    }
  }

  /** When the polled cell is the goal, ranking it last witnesses that the
      predecessor chains are acyclic, and the polled cells stay distinct. */
  lemma GoalReached(world: World, start: Pos, goal: Pos, open: seq<Pos>, closed: set<Pos>,
                    cameFrom: map<Pos, Pos>, scores: map<Pos, Scores>, rank: map<Pos, nat>,
                    polled: seq<Pos>, k: nat, rank': map<Pos, nat>, polled': seq<Pos>)
    requires SearchInv(world, start, goal, open, closed, cameFrom, scores, rank, polled)
    requires k < |open| && rank' == rank[open[k] := |polled|] && polled' == polled + [open[k]]
    ensures open[k] in rank' && RankedBy(cameFrom, rank')
    ensures Distinct(polled') && forall i :: 0 <= i < |polled'| ==> InBounds(world, polled'[i])
    ensures |polled'| <= Rows(world) * Cols(world)
    ensures |polled'| > 0 && polled'[|polled'| - 1] == open[k]
  {
    assert Distinct(polled') by {
      forall i, j | 0 <= i < j < |polled'| ensures polled'[i] != polled'[j] {
        if j == |polled| {
          assert polled'[i] in closed;
        }
      }
    }
    DistinctCellsBound(world, polled');
  }

  /** The chain that `reconstructPath` returns for the polled goal is a
      route from `start`; when `start` is the goal it is `[start]` alone. */
  lemma ChainIsPath(world: World, start: Pos, goal: Pos, open: seq<Pos>, closed: set<Pos>,
                    cameFrom: map<Pos, Pos>, scores: map<Pos, Scores>, rank: map<Pos, nat>,
                    polled: seq<Pos>, k: nat, route: seq<Pos>, polled': seq<Pos>)
    requires SearchInv(world, start, goal, open, closed, cameFrom, scores, rank, polled)
    requires k < |open| && open[k] == goal
    requires |route| > 0 && route[|route| - 1] == goal && route[0] !in cameFrom
    requires forall i :: 0 < i < |route| ==> route[i] in cameFrom && cameFrom[route[i]] == route[i - 1]
    requires Distinct(route) && polled' == polled + [goal]
    ensures IsPath(world, start, goal, route)
    ensures start == goal ==> route == [start]
    ensures forall i :: 0 <= i < |route| ==> route[i] in scores && scores[route[i]].g == i
    ensures forall c :: c in route ==> c in polled'
  {
    assert route[0] == start by {
      if |route| > 1 {
        assert route[0] == cameFrom[route[1]];
      } else {
        assert open[k] in open;
      }
    }
    if start == goal {
      assert route[0] == route[|route| - 1];
    }
    forall i | 0 <= i < |route| ensures route[i] in scores && scores[route[i]].g == i {
      ChainCosts(start, cameFrom, scores, route, i);
    }
    forall c | c in route ensures c in polled' {
      var i :| 0 <= i < |route| && route[i] == c;
      if i < |route| - 1 {
        assert route[i] == cameFrom[route[i + 1]];
        assert c in closed;
      }
    }
  }

  /** Along a predecessor chain from `start`, the cost recorded for the
      cell at position `i` is `i`. */
  lemma {:induction false} ChainCosts(start: Pos, cameFrom: map<Pos, Pos>, scores: map<Pos, Scores>,
                                      route: seq<Pos>, i: nat)
    requires Costs(start, cameFrom, scores)
    requires |route| > 0 && route[0] == start
    requires forall j :: 0 < j < |route| ==> route[j] in cameFrom && cameFrom[route[j]] == route[j - 1]
    requires i < |route|
    ensures route[i] in scores && scores[route[i]].g == i
  {
    if i > 0 {
      ChainCosts(start, cameFrom, scores, route, i - 1);
      assert route[i] in cameFrom && cameFrom[route[i]] == route[i - 1];
    }
  }

  /** A free cell inside the grid has been discovered. */
  ghost predicate Handled(world: World, n: Pos, closed: set<Pos>, open: seq<Pos>) {
    WellFormed(world) && InBounds(world, n) && Free(world, n) ==> n in closed || n in open
  }

  /** Opening more cells keeps every already-surrounded cell surrounded. */
  lemma SurroundedGrows(world: World, done: set<Pos>, closed: set<Pos>, open: seq<Pos>, open': seq<Pos>)
    requires WellFormed(world) && Surrounded(world, done, closed, open)
    requires forall x :: x in open ==> x in open'
    ensures Surrounded(world, done, closed, open')
  {
  }

  /** When the open set runs dry, the closed set holds `start`, not `goal`,
      and every free neighbour of its cells: no route exists, and in
      particular `start` is not the goal. */
  lemma SearchExhausted(world: World, start: Pos, goal: Pos, closed: set<Pos>, cameFrom: map<Pos, Pos>,
                        scores: map<Pos, Scores>, rank: map<Pos, nat>, polled: seq<Pos>)
    requires SearchInv(world, start, goal, [], closed, cameFrom, scores, rank, polled)
    requires Surrounded(world, closed, closed, [])
    ensures start != goal && start in polled
    ensures forall p :: !IsPath(world, start, goal, p)
    ensures forall c :: c in polled <==> Reachable(world, start, c)
  {
    NoPathLeaves(world, start, goal, closed);
    forall c ensures c in polled <==> Reachable(world, start, c) {
      if c in polled {
        ClosedReachable(world, start, closed, cameFrom, rank, c);
      }
      if Reachable(world, start, c) {
        var p :| IsPath(world, start, c, p);
        PathStaysInside(world, start, c, closed, p, |p| - 1);
      }
    }
  }

  /** Every closed cell is reachable from `start`: following `cameFrom`
      back, ranks fall until `start`, the one closed cell without a
      predecessor. */
  lemma ClosedReachable(world: World, start: Pos, closed: set<Pos>, cameFrom: map<Pos, Pos>,
                        rank: map<Pos, nat>, c: Pos)
    requires WellFormed(world) && InBounds(world, start)
    requires forall x :: x in closed ==> x == start || x in cameFrom
    requires Links(world, closed, cameFrom)
    requires rank.Keys == closed && RankedBy(cameFrom, rank)
    requires c in closed
    ensures Reachable(world, start, c)
    decreases rank[c]
  {
    if c == start {
      assert IsPath(world, start, c, [start]);
    } else {
      var b := cameFrom[c];
      assert b in closed && rank[b] < rank[c];
      ClosedReachable(world, start, closed, cameFrom, rank, b);
      var q :| IsPath(world, start, b, q);
      PathExtends(world, start, b, q, c);
    }
  }

  /** A route to `b` followed by a free 4-adjacent cell is a route to it. */
  lemma PathExtends(world: World, start: Pos, b: Pos, q: seq<Pos>, c: Pos)
    requires WellFormed(world) && IsPath(world, start, b, q)
    requires InBounds(world, c) && Free(world, c) && Adjacent(b, c)
    ensures IsPath(world, start, c, q + [c])
  {
  }

  /** Every open cell has been scored. */
  lemma OpenIsScored(world: World, start: Pos, goal: Pos, open: seq<Pos>, closed: set<Pos>,
                     cameFrom: map<Pos, Pos>, scores: map<Pos, Scores>, rank: map<Pos, nat>,
                     polled: seq<Pos>, x: Pos)
    requires SearchInv(world, start, goal, open, closed, cameFrom, scores, rank, polled)
    ensures x in open ==> x in scores
  {
    if x in open {
      var i :| 0 <= i < |open| && open[i] == x;
    }
  }

  /** What offering `neighbor` the cost `g` through `current` does: a cell
      not yet open, or one reached more cheaply than before, gets `current`
      as its predecessor and the scores `g`, `h` and `g + h`, and is opened
      if it was not open; otherwise nothing changes. */
  ghost predicate Offered(goal: Pos, current: Pos, g: int, neighbor: Pos,
                          open: seq<Pos>, cameFrom: map<Pos, Pos>, scores: map<Pos, Scores>,
                          open': seq<Pos>, cameFrom': map<Pos, Pos>, scores': map<Pos, Scores>)
  {
    if neighbor !in open || (neighbor in scores && g < scores[neighbor].g) then
      var h := Manhattan(neighbor, goal);
      && open' == (if neighbor in open then open else open + [neighbor])
      && cameFrom' == cameFrom[neighbor := current]
      && scores' == scores[neighbor := Scores(g, h, g + h)]
    else
      open' == open && cameFrom' == cameFrom && scores' == scores
  }

  /** One pass of the `for` loop of `findPath`: a closed or blocked
      neighbour is skipped, any other is offered the cost of a step from
      `current`. */
  method Relax(world: World, start: Pos, goal: Pos, current: Pos, currentG: int, neighbor: Pos,
               open: seq<Pos>, closed: set<Pos>, cameFrom: map<Pos, Pos>, scores: map<Pos, Scores>,
               ghost done: set<Pos>, ghost rank: map<Pos, nat>, ghost polled: seq<Pos>)
    returns (open': seq<Pos>, cameFrom': map<Pos, Pos>, scores': map<Pos, Scores>)
    requires SearchInv(world, start, goal, open, closed, cameFrom, scores, rank, polled)
    requires current in closed && InBounds(world, neighbor) && Adjacent(current, neighbor)
    requires current in scores && currentG == scores[current].g
    requires Surrounded(world, done, closed, open)
    ensures SearchInv(world, start, goal, open', closed, cameFrom', scores', rank, polled)
    ensures Surrounded(world, done, closed, open')
    ensures forall x :: x in open ==> x in open'
    ensures Handled(world, neighbor, closed, open')
    ensures if neighbor in closed || !Free(world, neighbor) then
              open' == open && cameFrom' == cameFrom && scores' == scores
            else
              Offered(goal, current, currentG + 1, neighbor, open, cameFrom, scores, open', cameFrom', scores')
  {
    if neighbor in closed || !Free(world, neighbor) {
      open', cameFrom', scores' := open, cameFrom, scores;
    } else {
      open', cameFrom', scores' := Improve(world, start, goal, current, currentG + 1, neighbor,
                                          open, closed, cameFrom, scores, done, rank, polled);
    }
  }

  /** The cost comparison of `findPath` for a free, unclosed neighbour: if it
      is not open yet or the step from `current` is cheaper than its recorded
      cost, `current` becomes its predecessor, it is scored afresh and opened
      if it was not; otherwise nothing changes. Either way it ends up open. */
  method Improve(world: World, start: Pos, goal: Pos, current: Pos, tentativeG: int, neighbor: Pos,
                 open: seq<Pos>, closed: set<Pos>, cameFrom: map<Pos, Pos>, scores: map<Pos, Scores>,
                 ghost done: set<Pos>, ghost rank: map<Pos, nat>, ghost polled: seq<Pos>)
    returns (open': seq<Pos>, cameFrom': map<Pos, Pos>, scores': map<Pos, Scores>)
    requires SearchInv(world, start, goal, open, closed, cameFrom, scores, rank, polled)
    requires current in closed && InBounds(world, neighbor) && Adjacent(current, neighbor)
    requires Free(world, neighbor) && neighbor !in closed
    requires current in scores && tentativeG == scores[current].g + 1
    requires Surrounded(world, done, closed, open)
    ensures SearchInv(world, start, goal, open', closed, cameFrom', scores', rank, polled)
    ensures Surrounded(world, done, closed, open')
    ensures forall x :: x in open ==> x in open'
    ensures neighbor in open'
    ensures Offered(goal, current, tentativeG, neighbor, open, cameFrom, scores, open', cameFrom', scores')
  {
    OpenIsScored(world, start, goal, open, closed, cameFrom, scores, rank, polled, neighbor);
    if neighbor !in open || tentativeG < scores[neighbor].g {
      cameFrom' := cameFrom[neighbor := current];
      var h := Manhattan(neighbor, goal);
      scores' := scores[neighbor := Scores(tentativeG, h, tentativeG + h)];
      open' := if neighbor in open then open else open + [neighbor];
      Discover(world, start, goal, open, closed, cameFrom, scores, done, rank, polled, current, neighbor, tentativeG,
               open', cameFrom', scores');
    } else {
      open', cameFrom', scores' := open, cameFrom, scores;
    }
  }

  /** The `for` loop of `findPath` over the neighbours of the just-closed
      `current`. Afterwards every free neighbour of every closed cell has
      been discovered. */
  method RelaxNeighbours(world: World, start: Pos, goal: Pos, current: Pos, currentG: int,
                         open: seq<Pos>, closed: set<Pos>, cameFrom: map<Pos, Pos>, scores: map<Pos, Scores>,
                         ghost rank: map<Pos, nat>, ghost polled: seq<Pos>)
    returns (open': seq<Pos>, cameFrom': map<Pos, Pos>, scores': map<Pos, Scores>)
    requires SearchInv(world, start, goal, open, closed, cameFrom, scores, rank, polled)
    requires current in closed && Surrounded(world, closed - {current}, closed, open)
    requires current in scores && currentG == scores[current].g
    ensures SearchInv(world, start, goal, open', closed, cameFrom', scores', rank, polled)
    ensures Surrounded(world, closed, closed, open')
    ensures forall x :: x in open ==> x in open'
  {
    open', cameFrom', scores' := open, cameFrom, scores;
    var neighbors := GetNeighbors(world, current);
    ExpansionIsNeighbourhood(world, current);
    for i := 0 to |neighbors|
      invariant SearchInv(world, start, goal, open', closed, cameFrom', scores', rank, polled)
      invariant Surrounded(world, closed - {current}, closed, open')
      invariant forall x :: x in open ==> x in open'
      invariant forall j :: 0 <= j < i ==> Handled(world, neighbors[j], closed, open')
      invariant current in scores' && scores'[current] == scores[current]
    {
      var neighbor := neighbors[i];
      assert InBounds(world, neighbor) && Adjacent(current, neighbor) by {
        assert neighbor in neighbors;
      }
      ghost var before := open';
      open', cameFrom', scores' := Relax(world, start, goal, current, currentG, neighbor, open', closed,
                                         cameFrom', scores', closed - {current}, rank, polled);
      HandledGrows(world, neighbors, i, closed, before, open');
    }
    AllNeighboursHandled(world, current, neighbors, closed, open');
  }

  /** Opening more cells keeps handled neighbours handled. */
  lemma HandledGrows(world: World, neighbors: seq<Pos>, i: nat, closed: set<Pos>, open: seq<Pos>, open': seq<Pos>)
    requires i < |neighbors|
    requires forall j :: 0 <= j < i ==> Handled(world, neighbors[j], closed, open)
    requires Handled(world, neighbors[i], closed, open')
    requires forall x :: x in open ==> x in open'
    ensures forall j :: 0 <= j < i + 1 ==> Handled(world, neighbors[j], closed, open')
  {
    forall j | 0 <= j < i ensures Handled(world, neighbors[j], closed, open') {
      assert Handled(world, neighbors[j], closed, open);
    }
  }

  /** Once each neighbour of `current` is handled, `current` is surrounded
      like every other closed cell. */
  lemma AllNeighboursHandled(world: World, current: Pos, neighbors: seq<Pos>, closed: set<Pos>, open: seq<Pos>)
    requires WellFormed(world) && current in closed && neighbors == Expansion(world, current)
    requires Surrounded(world, closed - {current}, closed, open)
    requires forall j :: 0 <= j < |neighbors| ==> Handled(world, neighbors[j], closed, open)
    ensures Surrounded(world, closed, closed, open)
  {
    ExpansionIsNeighbourhood(world, current);
    forall c, d: nat | c in closed && d < 4 && InBounds(world, Step(c, d)) && Free(world, Step(c, d))
      ensures Step(c, d) in closed || Step(c, d) in open
    {
      if c == current {
        assert Step(c, d) in neighbors;
        var j :| 0 <= j < |neighbors| && neighbors[j] == Step(c, d);
        assert Handled(world, neighbors[j], closed, open);
      }
    }
  }

  /** `findPath`. On success the result is a route from `start` to `goal`
      through free cells that visits no cell twice; `None` (Java's `null`)
      only when no such route exists at all. `polled` records the polled
      cells in order: none twice, so at most rows*cols iterations. */
  method FindPath(world: World, start: Pos, goal: Pos) returns (path: Option<seq<Pos>>, ghost polled: seq<Pos>)
    requires WellFormed(world) && InBounds(world, start) && InBounds(world, goal)
    ensures path.Some? ==> IsPath(world, start, goal, path.value) && Distinct(path.value)
    ensures path.None? ==> forall p :: !IsPath(world, start, goal, p)
    ensures start == goal ==> path == Some([start])
    ensures Distinct(polled) && forall i :: 0 <= i < |polled| ==> InBounds(world, polled[i])
    ensures |polled| <= Rows(world) * Cols(world)
    ensures path.Some? ==> |polled| > 0 && polled[|polled| - 1] == goal
    ensures path.Some? ==> forall c :: c in path.value ==> c in polled
    ensures path.None? ==> start in polled
    ensures path.None? ==> forall c :: c in polled <==> Reachable(world, start, c)
  {
    var open: seq<Pos> := [start];
    var cameFrom: map<Pos, Pos> := map[];
    var closed: set<Pos> := {};
    var h0 := Manhattan(start, goal);
    var scores: map<Pos, Scores> := map[start := Scores(0, h0, 0 + h0)];
    ghost var rank: map<Pos, nat> := map[];
    polled := [];
    InitialState(world, start, goal);

    while open != []
      invariant SearchInv(world, start, goal, open, closed, cameFrom, scores, rank, polled)
      invariant Surrounded(world, closed, closed, open)
      invariant |polled| <= Rows(world) * Cols(world)
      decreases Rows(world) * Cols(world) - |polled|
    {
      var k := ExtractMin(open, scores);
      var current := open[k];

      if current == goal {
        ghost var rank' := rank[current := |polled|];
        ghost var polled' := polled + [current];
        GoalReached(world, start, goal, open, closed, cameFrom, scores, rank, polled, k, rank', polled');
        var route := ReconstructPath(cameFrom, current, rank');
        ChainIsPath(world, start, goal, open, closed, cameFrom, scores, rank, polled, k, route, polled');
        path, polled := Some(route), polled';
        return;
      }

      var rest := open[..k] + open[k + 1..];
      var closed' := closed + {current};
      ghost var rank' := rank[current := |polled|];
      ghost var polled' := polled + [current];
      PollAndClose(world, start, goal, open, closed, cameFrom, scores, rank, polled, k, rest, closed', rank', polled');
      var currentG := scores[current].g;
      closed, rank, polled := closed', rank', polled';

      open, cameFrom, scores := RelaxNeighbours(world, start, goal, current, currentG, rest, closed,
                                                cameFrom, scores, rank, polled);
    }
    path := None;
    SearchExhausted(world, start, goal, closed, cameFrom, scores, rank, polled);
  }
}

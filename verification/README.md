# A* grid search, modelled in Dafny

This project models the search core of `AStar.java`: a 4-connected A* search
over a rectangular grid in which cells of type 1 are blocked. The core has
these parts:

- the `Node` cell with its mutable `g`, `h` and `f` scores;
- the Manhattan heuristic;
- `getNeighbors`, which expands a cell to its up, down, left and right
  neighbours;
- `findPath`, the A* loop over an open set ordered by `f`, a closed set and a
  `cameFrom` predecessor map;
- `reconstructPath`, which follows `cameFrom` back from the goal and reverses
  the chain;
- `parseCoordinates`, which reads a typed "row col" pair.

Modules:

- `Wrappers`: `Option` and `Result`.
- `Ints`: the range of a Java `int` and the `int32` type.
- `Grid`: cells, the world, the heuristic and neighbour expansion
  (`GetNeighbors` is a loop over the four offsets, as in the source).
- `Nodes`: the `Node` class, with its setters modelled on 32-bit `int`
  fields.
- `Search`: the search itself, as methods with loops (`ExtractMin`,
  `Reverse`, `ReconstructPath`, `RelaxNeighbours`, `FindPath`). The
  invariants those loops keep are ghost predicates, and one lemma covers
  each change of state.
- `Coordinates`: `parseCoordinates`, as pure functions over strings.
  `String.trim`, `split("\\s+")` and `Integer.parseInt` are written out
  alongside it.

## Modelling choices

- **Search state is kept per call.** `findPath` keeps its search state in
  values keyed by cell coordinates: the open set is a duplicate-free `seq`,
  the closed set a `set`, and `cameFrom` and the scores are `map`s. `Node`
  overrides `equals` (row and column) but not `hashCode`, so the Java
  `HashMap` and `HashSet` find a node by object identity, while the open
  set's `contains` and the goal test use `equals`. Both agree with keying by
  `Pos` because the world holds exactly one `Node` per cell, and `start`,
  `goal` and every neighbour are taken from the world.
- **Unit edge cost.** The `Costs` part of the invariant keeps `g(start) == 0`
  and `g(k) == g(cameFrom[k]) + 1` for every recorded predecessor, so the `g`
  of a cell is the length of its predecessor chain, and of the returned
  route at the goal.
- **Ghost witnesses.** A ghost `rank` map records when each cell was closed
  and witnesses that predecessor chains end. A ghost `polled` sequence
  records the order of polling.
- **What `FindPath` proves:**
  - a returned path starts at `start` and ends at `goal`;
  - consecutive cells of the path are 4-adjacent;
  - every cell after the first is in bounds and free;
  - no cell repeats;
  - `start == goal` gives `[start]`;
  - a `None` result means that no such path exists at all, so the search
    is complete;
  - no cell is polled twice (the closed set is never reopened), so the
    loop runs at most `rows * cols` times;
  - every cell of a returned path was polled, and so was `start` when the
    result is `None`;
  - when the result is `None`, the polled cells are exactly the cells
    reachable from `start`: its connected component of free cells.

## Model

| member | source | states |
|---|---|---|
| Grid.Manhattan | AStar.java:148-150 | the distance is a natural number, and it is 0 exactly when the two cells coincide |
| Grid.ManhattanSymmetric | AStar.java:148-150 | the distance does not depend on argument order |
| Grid.AdjacentIsUnitDistance | AStar.java:148-167 | two cells are 4-adjacent exactly when their Manhattan distance is 1 |
| Grid.ManhattanAdmissible | AStar.java:148-150 | a walk of unit steps between two cells has at least their Manhattan distance in steps, so the heuristic never overestimates |
| Grid.Step | AStar.java:154-159 | each of the four offsets leads to a 4-adjacent cell |
| Grid.AdjacentIsStep | AStar.java:154-159 | every 4-adjacent cell is reached by one of the four offsets |
| Grid.Clip | AStar.java:161-163 | the kept cells are exactly the in-bounds ones among the candidates, and there are no more of them than candidates |
| Grid.ExpansionIsNeighbourhood | AStar.java:152-167 | at most four neighbours; a cell is a neighbour exactly when it is inside the grid and 4-adjacent |
| Grid.NeighbourOrder | AStar.java:152-167 | the expansion is the up, down, left and right candidates in that order, each kept exactly when it is inside the grid |
| Grid.InteriorNeighbours | AStar.java:152-167 | away from the border the result is up, down, left, right, in that order |
| Grid.CornerNeighbours | AStar.java:152-167 | in the top-left corner only down and right are returned, in that order |
| Grid.GetNeighbors | AStar.java:152-167 | the loop over the four offsets returns the in-bounds candidates in offset order |
| Grid.DistinctCellsBound | AStar.java:107-108 | distinct in-bounds cells number at most rows * cols |
| Nodes.Wrap32 | AStar.java:196 | the 32-bit result agrees with the exact sum modulo 2^32, and equals it when it fits |
| Nodes.Node.constructor | AStar.java:185-193 | a new node keeps its coordinates and type, with `g` at `Integer.MAX_VALUE` and `h`, `f` at 0 |
| Nodes.Node.SetF | AStar.java:195-197 | `f` becomes `g + h` with `int` wrap-around; `g` and `h` are unchanged |
| Nodes.Node.SetG | AStar.java:199-201 | only `g` changes |
| Nodes.Node.SetH | AStar.java:203-205 | only `h` changes |
| Nodes.Node.Equals | AStar.java:239-245 | two nodes are equal exactly when the other is non-null and has the same row and column, whatever their types and scores |
| Nodes.Rescore | AStar.java:134-136 | after the three setters `g` and `h` hold the new values, and `f == g + h` whenever the sum fits in an `int` |
| Search.PathLengthBound | AStar.java:148-150 | every path from start to goal has at least Manhattan(start, goal) steps |
| Search.ExtractMin | AStar.java:106-117 | the polled index holds a minimal `f` among the open cells, and it is the first such index |
| Search.RemoveAt | AStar.java:117 | removing the polled entry leaves the other open cells, still without duplicates |
| Search.Reverse | AStar.java:176 | the result is the input in reverse order |
| Search.ReconstructPath | AStar.java:169-178 | the chain ends at `current` and starts at a cell with no predecessor; each cell is the recorded predecessor of the next; no cell repeats; it terminates because predecessors were closed strictly earlier |
| Search.NoPathLeaves | AStar.java:116-145 | a set that holds `start` but not `goal` and contains every free neighbour of its cells admits no path from start to goal |
| Search.PathStaysInside | AStar.java:116-145 | a path that starts inside such a set never leaves it |
| Search.InitialState | AStar.java:110-114 | the state after seeding the open set with `start` satisfies the search invariant |
| Search.PollAndClose | AStar.java:117-123 | polling a non-goal cell and closing it keeps the invariant: every closed cell has a rank of its own, each predecessor is ranked before its successor, the cell is never reopened, and the poll count stays within rows * cols |
| Search.Discover | AStar.java:132-140 | recording `current` as predecessor, giving the neighbour `g(current) + 1` and opening it keeps the invariant, including the unit-cost link between each cell and its predecessor |
| Search.DiscoverOpen | AStar.java:134-140 | the new entry is scored with `h` equal to the Manhattan distance and `f == g + h`, and the open set stays duplicate-free |
| Search.DiscoverLinks | AStar.java:133 | predecessors stay closed and adjacent, and they still rank strictly earlier |
| Search.DiscoverCosts | AStar.java:130-135 | `g(start)` stays 0 and every recorded predecessor still has a `g` exactly one below its successor's after the neighbour is relinked with `g(current) + 1` |
| Search.GoalReached | AStar.java:117-120 | ranking the polled goal last makes every predecessor chain end, and the polled cells stay distinct and within rows * cols |
| Search.ChainIsPath | AStar.java:119-120 | the chain rebuilt for the goal is a path from start, and it is `[start]` when start is the goal; the `g` of its i-th cell is i; every cell on it was polled |
| Search.ChainCosts | AStar.java:130-134 | along a predecessor chain from start, the i-th cell has `g == i` |
| Search.SearchExhausted | AStar.java:116-145 | an empty open set means start is not the goal, start was polled, no path exists, and the polled cells are exactly those reachable from start |
| Search.ClosedReachable | AStar.java:123-140 | every closed cell is reachable from start by a route of free, 4-adjacent cells, found by following predecessors whose rank falls until start |
| Search.Relax | AStar.java:125-129 | a closed or blocked neighbour leaves the state unchanged; an unopened neighbour, or one whose `g` exceeds `g(current) + 1`, gets `current` as predecessor, `g = g(current) + 1`, `h` the Manhattan distance to the goal and `f = g + h`, and joins the open set if absent; otherwise nothing changes; the invariant holds and the neighbour ends up closed, open or blocked |
| Search.Improve | AStar.java:130-141 | with `tentativeG == g(current) + 1`: an unopened neighbour, or one whose `g` exceeds `tentativeG`, gets `current` as predecessor, `g = tentativeG`, the Manhattan `h` and `f = g + h`, and a place in the open set; otherwise nothing changes; the invariant is kept |
| Search.RelaxNeighbours | AStar.java:125-142 | after the loop every free neighbour of every closed cell is closed or open, and the invariant holds |
| Search.FindPath | AStar.java:105-146 | a result is a duplicate-free path from start to goal through free cells; `None` means no path exists; `[start]` when start is the goal; no cell is polled twice and at most rows * cols cells are polled; every cell of the path was polled, and on `None` the polled cells are exactly the cells reachable from `start` |
| Coordinates.Trim | AStar.java:56 | the result is the input with a leading and a trailing run of characters up to U+0020 cut off, and it neither starts nor ends with such a character, so the cut is maximal (pinned further by `TrimStart`, `TrimEnd` and `TrimPadding`) |
| Coordinates.TrimStart | AStar.java:56 | strips exactly the leading characters up to U+0020 |
| Coordinates.TrimEnd | AStar.java:56 | strips exactly the trailing characters up to U+0020 |
| Coordinates.TokenLength | AStar.java:56 | the length of the leading run of non-whitespace characters |
| Coordinates.SplitTrimmed | AStar.java:56-57 | the empty string splits into one empty token; any other string splits into non-empty tokens without whitespace that glue back to its non-whitespace characters, one token per run (see `WordsAreRuns`, `TwoTokens`, `WordsOfPair`) |
| Coordinates.Words | AStar.java:56 | the pieces of a whitespace split are non-empty and contain no whitespace |
| Coordinates.WordPrefix | AStar.java:56 | a non-blank word in front of any text contributes all its characters to the non-whitespace characters and starts exactly one run, when it follows whitespace or the start |
| Coordinates.WordsAreRuns | AStar.java:56 | the pieces concatenate to exactly the non-whitespace characters of the input, and there is one piece per maximal run of them |
| Coordinates.TwoTokens | AStar.java:56-58 | the trimmed input splits into two tokens exactly when it holds two runs of non-whitespace |
| Coordinates.ParseInt | AStar.java:61-62 | an accepted number fits in an `int`, and its sign agrees with a leading `-`; which tokens it accepts, and with what value, is decided by `AcceptedSpelling` and `SpellingAccepted` |
| Coordinates.AcceptedSpelling | AStar.java:61-62 | every token `Integer.parseInt` accepts is an optional sign and zeros followed by the shortest decimal spelling of the value's magnitude, and a `-` there makes the value negative (or zero) |
| Coordinates.SpellingAccepted | AStar.java:61-62 | conversely every such token is accepted, with that value, whenever the value fits in an `int`; with `AcceptedSpelling` this decides exactly which tokens are rejected |
| Coordinates.DigitsSpelling | AStar.java:61-62 | every digit string is zeros followed by the shortest spelling of its value |
| Coordinates.Rejected | AStar.java:61-68 | letters, a lone sign, a doubled sign and an inner blank are rejected |
| Coordinates.ParseCoordinates | AStar.java:55-70 | any token count other than two gives the token-count error; two tokens that are not both integers give the integer error; an accepted pair is in bounds and equals the parsed tokens; an out-of-bounds error carries exactly the two parsed tokens, which lie outside the grid; so every input has one determined outcome |
| Coordinates.DigitChar | AStar.java:64 | the character is a decimal digit, as `Integer.toString` writes it in the error message; `ParseShow` reads such renderings back |
| Coordinates.Decimal | AStar.java:64 | the `Integer.toString` rendering of a magnitude is a non-empty string of decimal digits; it is the inverse that `ParseShow` reads back |
| Coordinates.DecimalValue | AStar.java:61-62 | decimal digits read back to the number they were written from |
| Coordinates.ParseShow | AStar.java:61-64 | `Integer.parseInt` reads back every `int` that `Integer.toString` writes |
| Coordinates.ParseNatural | AStar.java:61-62 | a non-negative `int` written in decimal parses back |
| Coordinates.ParseNegative | AStar.java:61-62 | a negative `int` written with its minus sign parses back |
| Coordinates.TrimStartPadding | AStar.java:56 | leading blanks before a non-blank are exactly what the start trim removes |
| Coordinates.TrimEndPadding | AStar.java:56 | trailing blanks after a non-blank are exactly what the end trim removes |
| Coordinates.TokenLengthOfWord | AStar.java:56 | a word followed by whitespace or the end of input is one token |
| Coordinates.WordsSkipsWhitespace | AStar.java:56 | leading whitespace does not change the split |
| Coordinates.WordsOfPair | AStar.java:56 | two words with whitespace between them split into exactly those two words |
| Coordinates.ShowIsWord | AStar.java:64 | a printed `int` is a single non-blank word |
| Coordinates.TrimPadding | AStar.java:56 | `trim` removes exactly the blanks around a string that neither starts nor ends with one |
| Coordinates.SplitTyped | AStar.java:56 | two printed `int`s with blanks around them and whitespace between them split into exactly those two tokens |
| Coordinates.SignedTokens | AStar.java:56 | `" +3 07"` splits into `+3` and `07` |
| Coordinates.SignedNumbers | AStar.java:61-62 | `+3` parses to 3 and `07` to 7 |
| Coordinates.SignedInput | AStar.java:55-70 | `" +3 07"` is accepted as row 3, column 7 on a 15 x 15 grid |
| Coordinates.ParseTypedCoordinates | AStar.java:55-70 | any two `int`s typed with surrounding blanks parse back exactly: accepted inside the grid, reported out of bounds otherwise |

## Left out

- `main`, `generateWorld` and `displayWorld` are not modelled: they are console I/O, randomness and rendering. The world is a parameter of the search instead.
- The check in `main` that start and goal are free is not modelled; `FindPath`, like `findPath`, does not demand it.
- Search.ExtractMin: `PriorityQueue.poll` is modelled as the first open cell with minimal current `f`. The Java heap is not re-sifted when a queued node's `f` drops. So the real poll order, and its tie-break among equal `f`, may differ. No property proved here depends on which cell is polled.
- Search.FindPath: the route is not proved shortest. Because of the stale heap order above, the source does not guarantee this either.
- Search.FindPath: the `g`, `h` and `f` scores are unbounded integers inside the search. Overflow of `g + 1` or of `g + h` cannot occur on grids of realistic size; `Nodes.Node.SetF` models the 32-bit wrap on its own.
- Search.FindPath: the search keeps its scores and predecessors in per-call maps. It does not write them into shared `Node` objects, which the Java code mutates and never resets between searches. Leftover `g` values from an earlier search are therefore not modelled. The `Integer.MAX_VALUE` initial `g` only appears in `Nodes.Node.constructor`.
- The `parent` field, `setParent`, `getParent` and `toString` are not modelled: the search never reads them.
- Search.FindPath: `Node` inherits `Object.hashCode`, so the `HashMap` and `HashSet` of `findPath` (AStar.java:107-108, 123, 126, 133, 174) look nodes up by identity. The model keys them by coordinates, which agrees only because the world holds one `Node` object per cell. Distinct `Node` objects for the same cell, and aliasing between them, are not modelled.
- Grid.Manhattan: `Math.abs` and subtraction are on unbounded integers, so the 32-bit overflow of extreme coordinates is not modelled.
- Grid.WellFormed: ragged worlds are excluded. `generateWorld` only builds rectangular ones, and `getNeighbors` reads the column count from row 0.
- Coordinates.ParseInt: only ASCII digits are accepted. `Integer.parseInt` also accepts other Unicode decimal digits.
- Coordinates.ParseCoordinates: the Java `int[]` result is modelled as a pair, and the exception messages as the three `ParseError` cases.
- Coordinates.SplitTrimmed: `split` is modelled only on input that `trim` has already stripped, the only way the source uses it. There the empty string gives `[""]` (one token), and otherwise no empty pieces appear.

# N-dimensional lattice graph

A Dafny model of `grid.py`, the lattice graph of the am121-eo1 repository.

`grid.py` has three layers:

- **Direction helpers.** A direction is a tuple of integers. `sum_directions` adds directions componentwise. `get_components` splits a direction into one single-axis direction per non-zero entry. `Graph.reverse_direction` negates a direction.
- **An adjacency graph.** A `Node` has a name and a set of `(neighbour, direction)` edges. `Graph.connect_nodes` adds an edge and its reversed twin. `get_node` and `get_next_to` look nodes and edges up. `Slot` is a node with a payload.
- **The `Grid` constructor.** `Grid.__init__` takes one extent per axis. It adds one node per point of the box in row-major order. It then joins neighbours along each axis using flat-index stride arithmetic. With `diagonal` on, it also:
  - keeps one vector of each `{v, -v}` pair from `{-1, 0, 1}^k`;
  - splits each kept vector with at least two non-zero entries into unit steps;
  - walks those steps from every node and joins the node to where the walk ends.

The files:

| file | module | models |
|---|---|---|
| `wrappers.dfy` | `Wrappers` | `Option`, `Result`, `Outcome` |
| `arith.dfy` | `Arith` | product of a list, division facts used by the stride arithmetic |
| `directions.dfy` | `Directions` | `sum_directions`, `get_components`, `reverse_direction` |
| `products.dfy` | `Products` | `itertools.product` as a row-major Cartesian product |
| `graph.dfy` | `Graphs` | `Node`, `Slot`, `Graph` |
| `lattice.dfy` | `Lattice` | the box, its row-major enumeration, strides, grid steps |
| `axes.dfy` | `Axes`, `AxisWiring` | the axis loops (grid.py:102-121) |
| `diagonals.dfy` | `Diagonals`, `DiagonalWiring` | `unique_directions` and the diagonal walk (grid.py:123-152) |
| `grid.dfy` | `Grids` | `Grid.__init__` as a whole |

How the model is built:

- Node names are the coordinate sequences themselves.
- A graph is a `class Graph` holding `nodes: map<Name, Node>`.
- `Node` is a value: its name and its set of edges. `connect_to` returns the updated node, which the graph stores back under its name.
- `Grid` is a `class` holding its `Graph`, because Dafny has no class inheritance.
- The loops of `Grid.__init__` are methods with loops that match the source:
  - `WireAxes` → `WireAxis` → `WirePass` → `WireLine`, one method per loop level;
  - `UniqueDirections` for the de-duplication loop;
  - `WireDiagonals` → `WireDirection` → `WireNode` → `Walk` for the diagonal loops.
- Each method states its effect as a ghost log of the `connect_nodes` calls it makes: `g.nodes == Wire(old(g.nodes), log)`. The lemmas characterise those logs.
- The central result is `Grids.LatticeIsGrid`. After construction:
  - the node names are exactly the points of the box;
  - each point `n` has an edge `(m, w)` exactly when `m == n + w` lies in the box and `w` is a unit step, or, with diagonals on, a vector of `{-1, 0, 1}^k` with at least two non-zero entries.

Behaviour of the code worth noting:

- `sum_directions` uses `zip`, so directions of different lengths are cut to the shortest one without an error.
- `unique_directions` keeps the all-zero vector. The de-duplication loop appends it, because its reverse is itself and is not yet in the list. So on `[2, 2]` there are 5 unique directions: `(-1,-1), (-1,0), (-1,1), (0,-1), (0,0)`.
- With no extents and `diagonal` on, `unique_directions` is `[()]`, the single empty vector.
- Every extent must be at least 1. An extent of 0 or below divides by zero at grid.py:106-108.
- `add_node` on a name already present makes a second node. The model requires the name to be new.

## Model

| member | source | states |
|---|---|---|
| Directions.Reverse | grid.py:81-83 | the reverse has the same length and negates every component |
| Directions.ReverseInvolutive | grid.py:81-83 | reversing twice gives the original direction |
| Directions.MinLength | grid.py:9 | the length `zip` stops at is at most every input's length and equal to one of them |
| Directions.SumDirections | grid.py:8-9 | no directions sum to the empty vector; otherwise the sum has the length of the shortest input |
| Directions.ColumnSumTruncate | grid.py:9 | cutting every input after its first `m` entries leaves the sum of any column below `m` unchanged |
| Directions.SumDirectionsTruncates | grid.py:8-9 | entries past the shortest input play no part: cutting every input to the shortest length first gives the same sum |
| Directions.SumDirectionsPair | grid.py:8-9 | summing two directions of equal length is componentwise addition |
| Directions.SumWithReverse | grid.py:8-9 | a direction plus its reverse is the zero vector of its length |
| Directions.Components | grid.py:11-20 | there are at most as many components as entries, and each component has the length of the direction |
| Directions.GetComponents | grid.py:11-20 | the loop returns `Components(direction)`, one single-axis vector per non-zero entry |
| Directions.ComponentsCharacterised | grid.py:11-20 | one component per non-zero index, in ascending index order; component `t` holds the value at that index and 0 elsewhere |
| Directions.ComponentsEmptyIffZero | grid.py:11-20 | the components are empty exactly for the zero vector |
| Directions.SumOfComponents | grid.py:8-20 | for a non-zero direction, `sum_directions` of its components gives the direction back |
| Directions.ComponentsOfSingle | grid.py:11-20 | a vector with one non-zero entry is its own only component |
| Directions.ComponentsReverse | grid.py:11-20 | reversing a direction keeps its number of components |
| Products.ProductLength | grid.py:95 | the product has as many tuples as the product of the pool sizes |
| Products.ProductAt | grid.py:95 | the tuple at flat index `i` takes its head from the first pool at `i / R` and its tail from the rest at `i % R` (row-major, last pool fastest) |
| Products.ProductMember | grid.py:95 | a sequence is a tuple of the product exactly when each entry is drawn from its pool |
| Products.ProductDistinct | grid.py:95 | pools without repeats give a product without repeats |
| Graphs.Node.NextTo | grid.py:27-29 | the edges returned are among the node's edges, and all of them when no direction is given |
| Graphs.Node.ConnectTo | grid.py:31-33 | the node keeps its name and its old edges and gains the edge to `node` along `direction` |
| Graphs.NextToExact | grid.py:27-29 | a query with direction `d` returns exactly the stored edges labelled `d` (exact match) |
| Graphs.NextToAll | grid.py:27-29 | a query without a direction returns every edge |
| Graphs.ConnectToAddsOne | grid.py:31-33 | `connect_to` adds exactly the one edge, and adding it again changes nothing |
| Graphs.SymmetricBothWays | grid.py:68-72 | in a symmetric graph, A→B along `d` exists exactly when B→A along `reverse(d)` does |
| Graphs.Connect | grid.py:68-72 | the names are kept; `name1` gains `(name2, direction)`, `name2` gains `(name1, reverse(direction))`, and every other node is unchanged |
| Graphs.ConnectEdges | grid.py:68-72 | after `connect_nodes(a, b, d)`, a node has its old edges plus `(b, d)` if it is `a` and `(a, reverse(d))` if it is `b`; names are kept |
| Graphs.ConnectPreservesSymmetric | grid.py:68-72 | `connect_nodes` keeps every edge matched by its reversed twin |
| Graphs.WireEdges | grid.py:68-72 | after a sequence of `connect_nodes` calls on existing names, a node's edges are its old ones plus exactly those some call gave it |
| Graphs.UnwiredCount | grid.py:64-66 | adding distinct names creates one node per name |
| Graphs.Graph.constructor | grid.py:51-53 | a new graph has no nodes |
| Graphs.Graph.AddNode | grid.py:61-62 | adds a node with no edges under a new name; nothing else changes |
| Graphs.Graph.AddNodes | grid.py:64-66 | adds one edge-less node per name; the old nodes are kept |
| Graphs.Graph.GetNode | grid.py:55-59 | returns the node stored under the name, or `NameNotFound` exactly when the name is absent |
| Graphs.Graph.ConnectNodes | grid.py:68-72 | succeeds exactly when both names exist; otherwise fails on the first missing name and changes nothing; on success applies `Connect`; keeps the graph symmetric and every node under its own name |
| Graphs.Graph.GetNextTo | grid.py:74-79 | for an existing name, returns exactly that node's edges matching the direction (all edges for `None`); otherwise `NameNotFound` |
| Graphs.Slot.constructor | grid.py:36-38 | a slot starts with the given name and payload |
| Graphs.Slot.SetValue | grid.py:40-41 | the payload becomes the new value |
| Graphs.Slot.GetValue | grid.py:43-44 | returns the payload last stored |
| Lattice.CoordinatesLength | grid.py:91-97 | the enumeration has `∏ dims` points |
| Lattice.CoordinatesMember | grid.py:91-97 | a sequence is enumerated exactly when it is a point of the box |
| Lattice.CoordinatesDistinct | grid.py:91-97 | no point is enumerated twice |
| Lattice.CoordinateAt | grid.py:95 | flat index `(l * e_d + j) * stride_d + p` is in range and holds the `l`-th point of the earlier axes, then `j`, then the `p`-th point of the later axes |
| Lattice.RowMajor | grid.py:95 | coordinate `d` of the point at flat index `i` is `(i / stride_d) % e_d` |
| Lattice.CoordinateOnto | grid.py:95 | every point of the box has a flat index |
| Lattice.StrideFactors | grid.py:104-108 | the node count is lines × extent × stride along every axis |
| Lattice.AxisStepHasOneComponent | grid.py:134-137 | a unit step (plus or minus `e_d`) has exactly one component, so the diagonal loop skips it |
| Lattice.ReverseStep | grid.py:81-83 | reversing keeps unit steps unit steps and diagonal steps diagonal |
| Axes.UnitDirections | grid.py:99 | `k` directions, the `d`-th being the unit vector `e_d` |
| Axes.AxisLinkShape | grid.py:118 | the call at pass `p`, line `l`, jump `j` of axis `d` joins an in-box point `c` with `c[d] == j < e_d - 1` to `c + e_d`, labelled `e_d` |
| Axes.AxisLinkIndex | grid.py:118 | that call reads flat indices `index` and `index + stride_d`, both below `node_amt` |
| Axes.AxisLogSound | grid.py:102-121 | every call of the first `d` axes joins some `c` to `c + e_a`, for an axis `a < d` and `c[a] < e_a - 1` |
| Axes.PassLogComplete | grid.py:113-121 | every in-box point below the last position on axis `d` is joined to its successor along `d` |
| Axes.AxisLogMember | grid.py:102-121 | a call is made by the axis loops exactly when it joins an in-box `c` with `c[d] < e_d - 1` to `c + e_d`, labelled `e_d`, for some axis `d` |
| Axes.AxisLogDirection | grid.py:102-121 | a call labelled `e_d` is one of axis `d`'s calls |
| Axes.AxisEdges | grid.py:102-121 | after the axis loops, the edges of an in-box `n` are exactly `(n + w, w)` for `w = ±e_d` with `n + w` in the box |
| Axes.AxisCallCount | grid.py:102-121 | axis `d` makes `(e_d - 1) × ∏_{j≠d} e_j` calls, no two of them alike, so it adds that many distinct edges, each joining a point to its successor along `d` |
| Axes.AxisLinkInPass | grid.py:113-121 | the call at pass `p`, line `l`, jump `j` of axis `d` is among the calls of axis `d` |
| Axes.AxisLinkFrom | grid.py:113-118 | the call at pass `p`, line `l`, jump `j` starts at the point with `j` on axis `d`, the `l`-th point of the earlier axes before it and the `p`-th point of the later axes after it |
| Axes.JumpLogFrom | grid.py:116-119 | the first `j` jumps of a line start on that line, below position `j` on axis `d` |
| Axes.LineLogFrom | grid.py:115-121 | the calls of the first `l` lines of a pass start on one of those lines |
| Axes.PassLogFrom | grid.py:113-121 | the calls of the first `p` passes start on a line of one of those passes |
| Axes.JumpLogDistinct | grid.py:116-119 | the jumps of one line are pairwise different calls |
| Axes.LineLogDistinct | grid.py:115-121 | the calls of the lines of one pass are pairwise different |
| Axes.PassLogDistinct | grid.py:113-121 | the calls of the passes of one axis are pairwise different |
| Axes.AxisLogDistinct | grid.py:102-121 | no call of the axis loops repeats an earlier one: different axes use different directions |
| Axes.AxisLogLength | grid.py:102-121 | the axis loops make `sum over d of (e_d - 1) × ∏_{j≠d} e_j` calls |
| Axes.AxisEdgeCount | grid.py:102-121 | those calls are pairwise distinct, so the axis loops add `sum over d of (e_d - 1) × ∏_{j≠d} e_j` distinct edges |
| Axes.AxisCallPairs | grid.py:102-121 | two calls of the axis loops that join the same two points are the same call: no pair of neighbours is connected twice |
| AxisWiring.AxisCounters | grid.py:102-108 | `nodes_per_hit // dim` is the stride of the axis and `node_amt // (nodes_per_hit * dim)` is the number of lines |
| AxisWiring.JumpCall | grid.py:113-121 | the running `current_index` and `current_index + nodes_per_hit` are below `node_amt`, and the call they make is that jump's call |
| AxisWiring.StrideNeighbour | grid.py:118 | flat index `i` is joined to `i + stride_d` along `e_d` exactly when its coordinate on axis `d` is below `e_d - 1` |
| AxisWiring.StrideSuccessor | grid.py:118 | below the last position on axis `d`, flat index `i + stride_d` is in range and the call joining it to `i` is made |
| AxisWiring.WireLine | grid.py:115-121 | one line makes its `e_d - 1` jump calls in order and leaves `current_index` at the start of the next line |
| AxisWiring.WirePass | grid.py:113-121 | one pass makes the calls of all its lines in order |
| AxisWiring.WireAxis | grid.py:112-121 | one axis makes the calls of all its passes in order |
| AxisWiring.WireAxes | grid.py:102-121 | the axis loops make exactly the calls of the axis log, in order, and keep the graph symmetric |
| Diagonals.CandidatesLength | grid.py:125 | there are `3^k` candidate vectors, an odd number |
| Diagonals.CandidatesMember | grid.py:125 | the candidates are exactly the vectors of `{-1, 0, 1}^k`, each once |
| Diagonals.CandidateReverse | grid.py:125 | the reverse of candidate `i` is candidate `3^k - 1 - i` |
| Diagonals.ReverseInPrefix | grid.py:127-129 | the reverse of candidate `i` is among the first `m` candidates exactly when `3^k - 1 - i < m` |
| Diagonals.FirstHalfShape | grid.py:123-131 | `unique_directions` has `(3^k + 1) / 2` entries, all in `{-1, 0, 1}^k` |
| Diagonals.FirstHalfCovers | grid.py:123-131 | every vector of `{-1, 0, 1}^k` or its reverse is kept |
| Diagonals.FirstHalfNoReversePairs | grid.py:123-131 | no kept vector is the reverse of a later kept one |
| Diagonals.FirstHalfEndsAtZero | grid.py:123-131 | the zero vector is kept, as the last entry |
| Diagonals.WalkTo | grid.py:141-147 | a walk that succeeds keeps the name length, and ends in the box when it takes at least one step |
| Diagonals.WalkStaysStuck | grid.py:141-147 | once a step fails the walk stays failed (the `break`) |
| Diagonals.WalkComponents | grid.py:139-147 | walking the components of `v` from an in-box `n` ends at `n + v` when that point is in the box, and fails otherwise |
| Diagonals.ComponentsAreAxisSteps | grid.py:139-144 | the components of a ternary vector are unit steps |
| Diagonals.NodeLogMember | grid.py:141-149 | the node loop for `v` connects `c` to `c + v` exactly for the nodes `c` whose target is in the box |
| Diagonals.DiagLogMember | grid.py:133-149 | the diagonal loops connect `c` to `c + v` along `v` exactly when `v` is kept, has at least two components, and `c + v` is in the box |
| Diagonals.DiagonalEdges | grid.py:133-149 | the diagonal calls give an in-box `n` exactly the edges `(n + w, w)` for diagonal `w` with `n + w` in the box |
| DiagonalWiring.UniqueDirections | grid.py:123-131 | the de-duplication loop returns the first `(3^k + 1) / 2` candidates |
| DiagonalWiring.UnwiredBox | grid.py:91-97 | after `add_nodes`, the names are exactly the points of the box |
| DiagonalWiring.LogWithin | grid.py:102-149 | every call of the construction joins two existing names, so none raises |
| DiagonalWiring.DiagonalGivesNoAxisStep | grid.py:141-149 | a diagonal call never adds an edge labelled with a unit step |
| DiagonalWiring.AxisPhaseExact | grid.py:102-121 | after the axis loops, each node's edge labelled with a unit step `w` goes to `n + w` exactly when that point is in the box |
| DiagonalWiring.DiagonalKeepsExact | grid.py:148-149 | a diagonal call between box points leaves every unit-step edge as it was |
| DiagonalWiring.Walk | grid.py:139-147 | the walk loop, using `get_next_to` with each component, returns `WalkTo` of the components |
| DiagonalWiring.NodeLogSnoc | grid.py:139-149 | the node loop extends its log by exactly the call of the current node, if any |
| DiagonalWiring.WireNode | grid.py:141-149 | one node: connects it to the walk's end when the walk succeeds, otherwise changes nothing |
| DiagonalWiring.WireDirection | grid.py:139-149 | one diagonal direction: makes the node calls of every node in order |
| DiagonalWiring.WireDiagonals | grid.py:133-149 | the diagonal loops make exactly the calls of the diagonal log, skipping directions with fewer than two components |
| Grids.GridLogGives | grid.py:102-149 | the calls of the whole construction give an in-box `n` exactly its grid edges |
| Grids.LatticeEdgesAt | grid.py:85-152 | in the finished grid, an in-box `n` is a node named `n`, and `(m, w)` is an edge of it exactly when `m == n + w` is in the box and `w` is a unit step or, with diagonals, a diagonal step |
| Grids.LatticeIsGrid | grid.py:85-152 | the finished grid's names are exactly the box points and its edges exactly the grid edges |
| Grids.LatticeSize | grid.py:91-97 | the finished grid has `∏ dims` nodes |
| Grids.GridEdgeSymmetric | grid.py:68-72 | every grid edge `n → m` along `w` is matched by the grid edge `m → n` along `reverse(w)` |
| Grids.AxisNeighbours | grid.py:102-121 | a node has the edge along `+e_d` exactly when it is not on the top face of axis `d`, and along `-e_d` exactly when its coordinate `d` is not 0 |
| Grids.FirstHalfTwo | grid.py:123-131 | for two axes, `unique_directions` is `(-1,-1), (-1,0), (-1,1), (0,-1), (0,0)` |
| Grids.KeptDiagonalsTwo | grid.py:133-137 | for two axes, the directions that are kept and have at least two components are exactly `(-1,1)` and `(-1,-1)` |
| Grids.TwoByTwoAxisCalls | grid.py:102-121 | on `[2, 2]` the axis loops make 4 calls, all different, so they add 4 distinct edges |
| Grids.TwoByTwoDiagonalCalls | grid.py:133-149 | on `[2, 2]` the diagonal loops make exactly the calls `(1,0)→(0,1)` along `(-1,1)` and `(1,1)→(0,0)` along `(-1,-1)` |
| Grids.TwoByTwoCorner | grid.py:85-152 | on `[2, 2]` with diagonals, the corner `(0,0)` has exactly the edges to `(1,0)`, `(0,1)` and `(1,1)` |
| Grids.CornerGridEdges | grid.py:99-149 | on `[2, 2]` with diagonals, the unit steps and diagonal steps that stay in the box from `(0,0)` are exactly those to `(1,0)`, `(0,1)` and `(1,1)` |
| Grids.NoExtents | grid.py:85-97 | with no extents the grid is one edge-less node named `()`, and the diagonal `unique_directions` is `[()]` |
| Grids.Grid.constructor | grid.py:85-152 | builds exactly the lattice: the box points as names, the grid edges as edges, a symmetric graph; `unique_directions` is the kept half of the candidates with diagonals and the unit vectors without |

## Left out

- `main.py` is not part of this model. It is script code that reads and parses text files, writes output and marks border cells with a float.
- Node names are the coordinate sequences, not the `str(coord)` text. Formatting a tuple as text is injective, so no two names collide in either form.
- `Node` objects and their identity are not modelled. An edge holds the neighbour's name rather than a reference to the neighbour's node. `get_next_to` maps references back to names, so its results are the same.
- `get_node` scans a Python set in hash order. The model looks names up in a map.
- A `connect_nodes` call on a missing name raises at grid.py:59 and aborts `Grid.__init__`. In the construction the model treats such a call as one that changes nothing. `DiagonalWiring.LogWithin` shows that every call the construction makes names two existing nodes, so no call takes this path.
- Graphs.Graph.AddNode: requires the name to be new. The source would add a second node with the same name, and `get_node` would then return either one.
- Graphs.Graph.AddNodes: requires distinct names that are not yet in the graph, for the same reason as `AddNode`. `Grid.__init__` passes the box points, which meet this.
- `node_class` is not modelled. Every node is a `Node`.
- `Slot` is not a subclass of `Node` here. It carries a name and a payload, but no edges.
- Grids.Grid.constructor: requires every extent to be at least 1. The source divides by zero when an extent is 0 or below; the model has no such error path. `dimensions=None` is the empty list of extents.
- DiagonalWiring.Walk: specified only for a graph whose unit-step edges are exact (`AxisStepsExact`), which is the state the axis loops leave. Under that condition there is at most one matching edge, so taking any one of them is the same as `next_to[0][0]`.
- `if cur_node_name:` is modelled as "the walk returned a name". A name is never empty text, so the two agree.
- `nodes_per_hit //= dim` and the other divisions are on positive numbers only, so Python's floor division and Dafny's division agree.
- `GetNextTo` returns a set of edges rather than a list. The source list has no meaningful order, since it comes from a set.
- The commented-out debug prints are not modelled.

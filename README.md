# Ventriglisse maze solver, modelled in Dafny

This project models `find_path` from the FCSC 2021 "Ventriglisse" solver. The
maze arrives as an image. A ball slides in one of four directions until a wall
on the side it travels towards stops it, or until it reaches the edge of the
grid. The solver:

1. reads the grid of cells from fixed pixel probes (`Maze.BuildMaze`);
2. builds the directed "slide graph". Its nodes are grid coordinates plus the
   two sentinels `Start` and `End`. Every wall-bearing cell has an edge to each
   of its four slide stops that differs from the cell itself. A wall-bearing
   start cell also gives an edge from `Start` to its upward stop, and an end cell gives an
   edge to `End` (`SlideGraph.BuildGraph`);
3. finds a shortest path from `Start` to `End` (`PathSearch.ShortestPath`, a
   layered breadth-first search standing in for `networkx.shortest_path`);
4. encodes that path as a string over `N`, `S`, `E`, `O` (`Encoder.EncodeMoves`).
   `O`, for *ouest*, is West.

Files and modules:

- `maze.dfy` (`Maze`): the `Case` record, the pixel probes, grid shape and
  parsing.
- `slide_graph.dfy` (`SlideGraph`): the slide stops, the four scans, the edge
  set, and the lemmas about what the graph contains.
- `path_search.dfy` (`PathSearch`): breadth-first search with a validity and
  minimality contract.
- `encoder.dfy` (`Encoder`): the move-string encoder and its properties.
- `solver.dfy` (`Solver`): `find_path` end to end.

Each stage is imperative, as in the source:

- the grid is appended row by row;
- the edge set is a local set that grows inside the nested loops over cells;
- each slide scan is a loop that stops at the first wall and keeps its last
  index when there is none;
- the move string grows by concatenation.

Each method is proved against a pure specification function (`Parse`,
`DownStop` and the other stops, `Graph`, `Moves`). The properties are lemmas
about those functions.

Three behaviours of the code worth noting:

- The `Start` edge depends on the start flag of the cell the upward scan began
  from, not on the flag of the cell where it stops (`solve.py` line 78). It is
  added even when that stop is the cell itself.
- A path `Start, c, End` with a single cell encodes as `"N"`, not `"NN"`. The
  string starts as `"N"`, no step is encoded, and the closing `N` is added only
  when the string does not already end with `N`.
- `case != slide_case` compares object identity, because `Case` defines no
  equality. A scan stays in the row or column of the cell it starts from, so
  this is modelled as comparing the stop's coordinate with the start's.

## Model

| member | source | states |
|---|---|---|
| `Maze.BuildMaze` | FCSC-2021/Ventriglisse/solve.py:29-49 | the grid has `height/64 - 3` rows (none when that is not positive), each with `width/64 - 2` cells, and cell (x, y) is classified from the 64-pixel block (x + 1, y + 2); the grid is rectangular |
| `Maze.Parse` | FCSC-2021/Ventriglisse/solve.py:33-49 | the parsed grid, row-major, is rectangular |
| `SlideGraph.DownStopIsFirstWall` | FCSC-2021/Ventriglisse/solve.py:58-61 | the downward stop is the first row at or below the start whose cell has a bottom wall, or the last row |
| `SlideGraph.LeftStopIsFirstWall` | FCSC-2021/Ventriglisse/solve.py:65-68 | the leftward stop is the first column at or left of the start whose cell has a left wall, or column 0 |
| `SlideGraph.UpStopIsFirstWall` | FCSC-2021/Ventriglisse/solve.py:72-75 | the upward stop is the first row at or above the start whose cell has a top wall, or row 0 |
| `SlideGraph.RightStopIsFirstWall` | FCSC-2021/Ventriglisse/solve.py:81-84 | the rightward stop is the first column at or right of the start whose cell has a right wall, or the last column |
| `SlideGraph.DownStop` | FCSC-2021/Ventriglisse/solve.py:58-61 | the downward stop lies in the grid, at or below the start |
| `SlideGraph.LeftStop` | FCSC-2021/Ventriglisse/solve.py:65-68 | the leftward stop lies at or left of the start |
| `SlideGraph.UpStop` | FCSC-2021/Ventriglisse/solve.py:72-75 | the upward stop lies at or above the start |
| `SlideGraph.RightStop` | FCSC-2021/Ventriglisse/solve.py:81-84 | the rightward stop lies in the grid, at or right of the start |
| `SlideGraph.SlideDown` | FCSC-2021/Ventriglisse/solve.py:58-61 | the scan loop with `break` returns the downward stop |
| `SlideGraph.SlideLeft` | FCSC-2021/Ventriglisse/solve.py:65-68 | the scan loop with `break` returns the leftward stop |
| `SlideGraph.SlideUp` | FCSC-2021/Ventriglisse/solve.py:72-75 | the scan loop with `break` returns the upward stop |
| `SlideGraph.SlideRight` | FCSC-2021/Ventriglisse/solve.py:81-84 | the scan loop with `break` returns the rightward stop |
| `SlideGraph.AddSlideEdges` | FCSC-2021/Ventriglisse/solve.py:57-86 | a wall-bearing cell adds one edge per slide that moves, and the `Start` edge to its upward stop when it is a start cell |
| `SlideGraph.AddCellEdges` | FCSC-2021/Ventriglisse/solve.py:54-89 | one visit of a cell adds exactly that cell's edges to the graph |
| `SlideGraph.AddRowEdges` | FCSC-2021/Ventriglisse/solve.py:53-89 | the inner loop over the cells of one row adds exactly the edges of that row's cells |
| `SlideGraph.BuildGraph` | FCSC-2021/Ventriglisse/solve.py:52-89 | the nested loops over the rows and columns build exactly the slide graph of the grid |
| `SlideGraph.GraphMember` | FCSC-2021/Ventriglisse/solve.py:52-89 | an edge is in the graph exactly when some cell of the grid adds it |
| `SlideGraph.CellEdgeCases` | FCSC-2021/Ventriglisse/solve.py:56-89 | the edges one cell adds are exactly: to `End` when it is an end cell; from `Start` to its upward stop when it is a wall-bearing start cell; and, when it has a wall, to each of its four slide stops other than itself |
| `SlideGraph.GraphAdds` | FCSC-2021/Ventriglisse/solve.py:52-89 | an edge is in the graph exactly when some cell of the grid adds it by one of those three rules |
| `SlideGraph.OutgoingEdges` | FCSC-2021/Ventriglisse/solve.py:56-89 | cell (a, b) leads to `End` exactly when it is an end cell; it leads to a cell exactly when it has a wall and that cell is one of its four slide stops other than itself |
| `SlideGraph.CoordEdgeShape` | FCSC-2021/Ventriglisse/solve.py:58-86 | every cell-to-cell edge joins two distinct cells of the grid, changes exactly one coordinate, starts at a wall-bearing cell and is the slide in the direction it points to |
| `SlideGraph.OutDegree` | FCSC-2021/Ventriglisse/solve.py:56-89 | a cell leads to at most four cells and at most five nodes; a wall-free cell leads nowhere but `End` |
| `SlideGraph.StartRule` | FCSC-2021/Ventriglisse/solve.py:72-79 | `Start` leads to (x, s) exactly when some wall-bearing start cell (x, y) has upward stop s, including s = y |
| `SlideGraph.StartOnTopWall` | FCSC-2021/Ventriglisse/solve.py:72-79 | a start cell with a top wall gets an edge from `Start` to itself, although that slide does not move |
| `SlideGraph.EndRule` | FCSC-2021/Ventriglisse/solve.py:88-89 | a node leads to `End` exactly when it is an end cell of the grid, whatever its walls |
| `SlideGraph.Sentinels` | FCSC-2021/Ventriglisse/solve.py:78-89 | no edge leaves `End` and no edge enters `Start` |
| `PathSearch.ShortestPath` | FCSC-2021/Ventriglisse/solve.py:92 | the result is `NodeNotFound` exactly when `Start` or `End` is not a node, `NoPath` exactly when both are nodes but are not connected, and otherwise a path from source to target along edges that no other such path is shorter than |
| `PathSearch.ExpandLayer` | FCSC-2021/Ventriglisse/solve.py:92 | one breadth-first layer keeps the search invariant: distances are edge counts along parent links, and every edge leaving an earlier layer leads to a found node at most one layer further |
| `PathSearch.NextLayer` | FCSC-2021/Ventriglisse/solve.py:92 | once every edge leaving the last layer has been followed, the newly found nodes form the next layer and the search invariant holds one layer further |
| `PathSearch.TracePath` | FCSC-2021/Ventriglisse/solve.py:92 | following parents yields a path from the source with as many edges as the target's distance |
| `PathSearch.WithinLayers` | FCSC-2021/Ventriglisse/solve.py:92 | a walk of k edges, with k no more than the number of layers, ends at a node found at distance at most k, so no path is shorter than the traced one |
| `PathSearch.ExhaustedLayers` | FCSC-2021/Ventriglisse/solve.py:92 | when the last layer is empty, every node reachable from the source has been found |
| `Encoder.AppendStep` | FCSC-2021/Ventriglisse/solve.py:96-105 | one step adds `S`, `N`, `E`, `O` in that order, each exactly when its coordinate test holds |
| `Encoder.EncodeSteps` | FCSC-2021/Ventriglisse/solve.py:94-105 | the encoding loop, which skips the two sentinels, yields the leading `N` followed by the letters of every step between consecutive cells |
| `Encoder.EncodeMoves` | FCSC-2021/Ventriglisse/solve.py:94-110 | the encoder returns the move string of the path: the steps, then a closing `N` only when they do not already end with one |
| `Encoder.MovesShape` | FCSC-2021/Ventriglisse/solve.py:94-108 | the move string starts with `N`, ends with `N` and uses only `N`, `S`, `E`, `O` |
| `Encoder.ShortPathMoves` | FCSC-2021/Ventriglisse/solve.py:94-108 | a path with at most one inner node encodes as `"N"` |
| `Encoder.OneLetterPerStep` | FCSC-2021/Ventriglisse/solve.py:94-108 | when every step changes one coordinate, the string is `N`, then one letter per step between cells (`S` when y grows, `N` when it shrinks, `E` when x grows, `O` when it shrinks), then one `N` only when the last letter is not `N` |
| `Encoder.WestThenSouth` | FCSC-2021/Ventriglisse/solve.py:94-108 | a west slide followed by a south slide encodes as `"NOSN"` |
| `Solver.PathThroughCells` | FCSC-2021/Ventriglisse/solve.py:92-97 | every walk from `Start` to `End` has at least one cell, and its inner nodes are all cells, so the encoder can unpack them |
| `Solver.MissingMarkers` | FCSC-2021/Ventriglisse/solve.py:78-92 | with no end cell, `End` is not a node; with no wall-bearing start cell, `Start` is not a node; so `FindPath` returns `NodeNotFound` |
| `Solver.SolvedMoves` | FCSC-2021/Ventriglisse/solve.py:92-108 | for every `Start`-to-`End` walk of the slide graph, the shortest one included, the move string starts and ends with `N`, uses only `N`, `S`, `E`, `O`, and has one letter per step between cells, plus the leading `N` and at most one closing `N` |
| `Solver.FindPath` | FCSC-2021/Ventriglisse/solve.py:26-110 | a parsed image yields the move string of a shortest `Start`-to-`End` path of its slide graph, or `NodeNotFound` exactly when a sentinel is missing, or `NoPath` exactly when the sentinels are not connected |
| `Solver.OneRowGraph` | FCSC-2021/Ventriglisse/solve.py:52-89 | the slide graph of one row of two cells (a start cell with a left wall, an end cell with a right wall) is exactly: `Start` to the left cell, each cell to the other, the right cell to `End` |
| `Solver.OneRowSolve` | FCSC-2021/Ventriglisse/solve.py:52-110 | in that row both sentinels are nodes and connected, and every shortest path encodes as `"NEN"` |

## Left out

- The network session: connecting, `recvuntil`, `sendline` and the endless loop over mazes (`solve.py` lines 113-126). This is I/O.
- Base64 decoding, PIL image decoding and saving `ohno.png` (lines 119-120, 125). These are foreign libraries and file I/O. The image is a total pixel function `(int, int) -> (int, int, int)`, so PIL's out-of-range pixel errors are not modelled.
- `Case.__str__` (lines 20-23). It is debug formatting.
- networkx internals. The graph is a set of edges whose nodes are the ends of those edges, which is the node set `add_edge` builds.
- PathSearch.ShortestPath: does not say which of several shortest paths is returned. networkx picks one by its own adjacency order and bidirectional search; the model picks among equal-length paths by unspecified set choice.
- Exceptions. A missing `Start` or `End` node is the source's `NodeNotFound`, which the caller catches (line 124). Unconnected sentinels are networkx's `NetworkXNoPath`, which the source does not catch. Both are modelled as error values rather than raised exceptions.
- Encoder.EncodeMoves: requires that every inner node of the path is a cell. Python would raise on unpacking a sentinel. `Solver.PathThroughCells` proves that every path the search can return meets this.
- SlideGraph.BuildGraph: requires a rectangular grid, because the source reads the width from the first row only. `Maze.BuildMaze` always produces one.

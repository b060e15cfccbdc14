/** The slide graph: from every wall-bearing cell a ball slides down, left,
    up and right until a wall on the side it travels towards stops it (the
    start cell itself included) or the grid ends. Nodes are grid coordinates
    and the two sentinels Start and End. */
module SlideGraph {
  import opened Maze

  datatype Node = Start | End | Coord(x: nat, y: nat)

  type Edge = (Node, Node)

  // ---------------------------------------------------------------------
  // Where a slide comes to rest

  /** Sliding down column x from row y: the ball stops on the first cell
      with a bottom wall, or on the last row. */
  function DownStop(maze: Grid, x: nat, y: nat): (r: nat)
    requires Rectangular(maze) && InGrid(maze, x, y)
    ensures y <= r < |maze|
    decreases |maze| - y
  {
    if maze[y][x].bottom || y == |maze| - 1 then y else DownStop(maze, x, y + 1)
  }

  /** Sliding left along row y: the first cell with a left wall, or column 0. */
  function LeftStop(maze: Grid, x: nat, y: nat): (r: nat)
    requires Rectangular(maze) && InGrid(maze, x, y)
    ensures r <= x
  {
    if maze[y][x].left || x == 0 then x else LeftStop(maze, x - 1, y)
  }

  /** Sliding up column x: the first cell with a top wall, or row 0. */
  function UpStop(maze: Grid, x: nat, y: nat): (r: nat)
    requires Rectangular(maze) && InGrid(maze, x, y)
    ensures r <= y
  {
    if maze[y][x].top || y == 0 then y else UpStop(maze, x, y - 1)
  }

  /** Sliding right along row y: the first cell with a right wall, or the
      last column. */
  function RightStop(maze: Grid, x: nat, y: nat): (r: nat)
    requires Rectangular(maze) && InGrid(maze, x, y)
    ensures x <= r < Width(maze)
    decreases Width(maze) - x
  {
    if maze[y][x].right || x == Width(maze) - 1 then x else RightStop(maze, x + 1, y)
  }

  /** The downward stop is the smallest row r >= y whose cell has a bottom
      wall, or the last row when there is none. */
  lemma {:induction false} DownStopIsFirstWall(maze: Grid, x: nat, y: nat)
    requires Rectangular(maze) && InGrid(maze, x, y)
    ensures var r := DownStop(maze, x, y);
            (maze[r][x].bottom || r == |maze| - 1) &&
            forall k :: y <= k < r ==> !maze[k][x].bottom
    decreases |maze| - y
  {
    if !(maze[y][x].bottom || y == |maze| - 1) {
      DownStopIsFirstWall(maze, x, y + 1);
    }
  }

  /** The leftward stop is the largest column r <= x whose cell has a left
      wall, or column 0. */
  lemma {:induction false} LeftStopIsFirstWall(maze: Grid, x: nat, y: nat)
    requires Rectangular(maze) && InGrid(maze, x, y)
    ensures var r := LeftStop(maze, x, y);
            (maze[y][r].left || r == 0) &&
            forall k :: r < k <= x ==> !maze[y][k].left
  {
    if !(maze[y][x].left || x == 0) {
      LeftStopIsFirstWall(maze, x - 1, y);
    }
  }

  /** The upward stop is the largest row r <= y whose cell has a top wall,
      or row 0. */
  lemma {:induction false} UpStopIsFirstWall(maze: Grid, x: nat, y: nat)
    requires Rectangular(maze) && InGrid(maze, x, y)
    ensures var r := UpStop(maze, x, y);
            (maze[r][x].top || r == 0) &&
            forall k :: r < k <= y ==> !maze[k][x].top
  {
    if !(maze[y][x].top || y == 0) {
      UpStopIsFirstWall(maze, x, y - 1);
    }
  }

  /** The rightward stop is the smallest column r >= x whose cell has a
      right wall, or the last column. */
  lemma {:induction false} RightStopIsFirstWall(maze: Grid, x: nat, y: nat)
    requires Rectangular(maze) && InGrid(maze, x, y)
    ensures var r := RightStop(maze, x, y);
            (maze[y][r].right || r == Width(maze) - 1) &&
            forall k :: x <= k < r ==> !maze[y][k].right
    decreases Width(maze) - x
  {
    if !(maze[y][x].right || x == Width(maze) - 1) {
      RightStopIsFirstWall(maze, x + 1, y);
    }
  }

  // ---------------------------------------------------------------------
  // The four scans, each a loop that stops at the first wall; the loop
  // variable keeps its last value when no wall is met.

  method SlideDown(maze: Grid, x: nat, y: nat) returns (slideY: nat)
    requires Rectangular(maze) && InGrid(maze, x, y)
    ensures slideY == DownStop(maze, x, y)
  {
    slideY := y;
    var k := y;
    while k < |maze|
      invariant y <= k <= |maze|
      invariant k > y ==> slideY == k - 1
      invariant forall j :: y <= j < k ==> !maze[j][x].bottom
    {
      slideY := k;
      if maze[k][x].bottom {
        break;
      }
      k := k + 1;
    }
    DownStopIsFirstWall(maze, x, y);
  }

  method SlideLeft(maze: Grid, x: nat, y: nat) returns (slideX: nat)
    requires Rectangular(maze) && InGrid(maze, x, y)
    ensures slideX == LeftStop(maze, x, y)
  {
    slideX := x;
    var k: int := x;
    while k >= 0
      invariant -1 <= k <= x
      invariant k < x ==> slideX == k + 1
      invariant forall j :: k < j <= x ==> !maze[y][j].left
    {
      slideX := k;
      if maze[y][k].left {
        break;
      }
      k := k - 1;
    }
    LeftStopIsFirstWall(maze, x, y);
  }

  method SlideUp(maze: Grid, x: nat, y: nat) returns (slideY: nat)
    requires Rectangular(maze) && InGrid(maze, x, y)
    ensures slideY == UpStop(maze, x, y)
  {
    slideY := y;
    var k: int := y;
    while k >= 0
      invariant -1 <= k <= y
      invariant k < y ==> slideY == k + 1
      invariant forall j :: k < j <= y ==> !maze[j][x].top
    {
      slideY := k;
      if maze[k][x].top {
        break;
      }
      k := k - 1;
    }
    UpStopIsFirstWall(maze, x, y);
  }

  method SlideRight(maze: Grid, x: nat, y: nat) returns (slideX: nat)
    requires Rectangular(maze) && InGrid(maze, x, y)
    ensures slideX == RightStop(maze, x, y)
  {
    slideX := x;
    var k := x;
    while k < Width(maze)
      invariant x <= k <= Width(maze)
      invariant k > x ==> slideX == k - 1
      invariant forall j :: x <= j < k ==> !maze[y][j].right
    {
      slideX := k;
      if maze[y][k].right {
        break;
      }
      k := k + 1;
    }
    RightStopIsFirstWall(maze, x, y);
  }

  // ---------------------------------------------------------------------
  // The edge set

  /** The four places a slide from (x, y) can end. */
  function Slides(maze: Grid, x: nat, y: nat): set<Node>
    requires Rectangular(maze) && InGrid(maze, x, y)
  {
    {Coord(x, DownStop(maze, x, y)), Coord(LeftStop(maze, x, y), y),
     Coord(x, UpStop(maze, x, y)), Coord(RightStop(maze, x, y), y)}
  }

  /** The edge of the downward slide from (x, y), if that slide moves. */
  function DownEdge(maze: Grid, x: nat, y: nat): set<Edge>
    requires Rectangular(maze) && InGrid(maze, x, y)
  {
    var r := DownStop(maze, x, y);
    if r != y then {(Coord(x, y), Coord(x, r))} else {}
  }

  function LeftEdge(maze: Grid, x: nat, y: nat): set<Edge>
    requires Rectangular(maze) && InGrid(maze, x, y)
  {
    var r := LeftStop(maze, x, y);
    if r != x then {(Coord(x, y), Coord(r, y))} else {}
  }

  function UpEdge(maze: Grid, x: nat, y: nat): set<Edge>
    requires Rectangular(maze) && InGrid(maze, x, y)
  {
    var r := UpStop(maze, x, y);
    if r != y then {(Coord(x, y), Coord(x, r))} else {}
  }

  /** A start cell links Start to its upward stop, even when that stop is
      the cell itself. */
  function StartEdge(maze: Grid, x: nat, y: nat): set<Edge>
    requires Rectangular(maze) && InGrid(maze, x, y)
  {
    if maze[y][x].start then {(Start, Coord(x, UpStop(maze, x, y)))} else {}
  }

  function RightEdge(maze: Grid, x: nat, y: nat): set<Edge>
    requires Rectangular(maze) && InGrid(maze, x, y)
  {
    var r := RightStop(maze, x, y);
    if r != x then {(Coord(x, y), Coord(r, y))} else {}
  }

  /** An end cell links to End, walls or not. */
  function EndEdge(maze: Grid, x: nat, y: nat): set<Edge>
    requires Rectangular(maze) && InGrid(maze, x, y)
  {
    if maze[y][x].end then {(Coord(x, y), End)} else {}
  }

  /** The edges cell (x, y) adds: the slide edges and the Start edge only
      when the cell has a wall, the End edge in any case. */
  function CellEdges(maze: Grid, x: nat, y: nat): set<Edge>
    requires Rectangular(maze) && InGrid(maze, x, y)
  {
    (if HasWall(maze[y][x]) then
       DownEdge(maze, x, y) + LeftEdge(maze, x, y) + UpEdge(maze, x, y)
       + StartEdge(maze, x, y) + RightEdge(maze, x, y)
     else {})
    + EndEdge(maze, x, y)
  }

  lemma CellEdgesWalled(maze: Grid, x: nat, y: nat)
    requires Rectangular(maze) && InGrid(maze, x, y) && HasWall(maze[y][x])
    ensures CellEdges(maze, x, y) == DownEdge(maze, x, y) + LeftEdge(maze, x, y) + UpEdge(maze, x, y)
                                     + StartEdge(maze, x, y) + RightEdge(maze, x, y) + EndEdge(maze, x, y)
  {
  }

  /** Edges of the first n cells of row y. */
  function RowEdges(maze: Grid, y: nat, n: nat): set<Edge>
    requires Rectangular(maze) && y < |maze| && n <= Width(maze)
  {
    if n == 0 then {} else RowEdges(maze, y, n - 1) + CellEdges(maze, n - 1, y)
  }

  /** Edges of the first m rows. */
  function RowsEdges(maze: Grid, m: nat): set<Edge>
    requires Rectangular(maze) && m <= |maze|
  {
    if m == 0 then {} else RowsEdges(maze, m - 1) + RowEdges(maze, m - 1, Width(maze))
  }

  /** The whole slide graph of a grid. */
  function Graph(maze: Grid): set<Edge>
    requires Rectangular(maze)
  {
    RowsEdges(maze, |maze|)
  }

  /** The four scans from a wall-bearing cell, and the edges they add. */
  method AddSlideEdges(maze: Grid, x: nat, y: nat) returns (walls: set<Edge>)
    requires Rectangular(maze) && InGrid(maze, x, y)
    ensures walls == DownEdge(maze, x, y) + LeftEdge(maze, x, y) + UpEdge(maze, x, y)
                     + StartEdge(maze, x, y) + RightEdge(maze, x, y)
  {
    walls := {};
    var slideY := SlideDown(maze, x, y);
    if slideY != y {
      walls := walls + {(Coord(x, y), Coord(x, slideY))};
    }
    assert walls == DownEdge(maze, x, y);
    var slideX := SlideLeft(maze, x, y);
    if slideX != x {
      walls := walls + {(Coord(x, y), Coord(slideX, y))};
    }
    assert walls == DownEdge(maze, x, y) + LeftEdge(maze, x, y);
    slideY := SlideUp(maze, x, y);
    if slideY != y {
      walls := walls + {(Coord(x, y), Coord(x, slideY))};
    }
    assert walls == DownEdge(maze, x, y) + LeftEdge(maze, x, y) + UpEdge(maze, x, y);
    if maze[y][x].start {
      walls := walls + {(Start, Coord(x, slideY))};
    }
    assert walls == DownEdge(maze, x, y) + LeftEdge(maze, x, y) + UpEdge(maze, x, y)
                    + StartEdge(maze, x, y);
    slideX := SlideRight(maze, x, y);
    if slideX != x {
      walls := walls + {(Coord(x, y), Coord(slideX, y))};
    }
  }

  /** The body of the scan over cells: adds the edges of cell (x, y). */
  method AddCellEdges(maze: Grid, x: nat, y: nat, graph: set<Edge>) returns (graph': set<Edge>)
    requires Rectangular(maze) && InGrid(maze, x, y)
    ensures graph' == graph + CellEdges(maze, x, y)
  {
    var c := maze[y][x];
    graph' := graph;
    if c.top || c.right || c.bottom || c.left {
      var walls := AddSlideEdges(maze, x, y);
      graph' := graph' + walls;
      CellEdgesWalled(maze, x, y);
    }
    if c.end {
      graph' := graph' + {(Coord(x, y), End)};
    }
  }

  /** The inner loop over the cells of row y. */
  method AddRowEdges(maze: Grid, y: nat, graph: set<Edge>) returns (graph': set<Edge>)
    requires Rectangular(maze) && y < |maze|
    ensures graph' == graph + RowEdges(maze, y, Width(maze))
  {
    graph' := graph;
    var x := 0;
    while x < |maze[0]|
      invariant 0 <= x <= Width(maze)
      invariant graph' == graph + RowEdges(maze, y, x)
    {
      graph' := AddCellEdges(maze, x, y, graph');
      x := x + 1;
    }
  }

  /** Visits the cells row by row and adds each cell's edges. */
  method BuildGraph(maze: Grid) returns (graph: set<Edge>)
    requires Rectangular(maze)
    ensures graph == Graph(maze)
  {
    graph := {};
    var y := 0;
    while y < |maze|
      invariant 0 <= y <= |maze|
      invariant graph == RowsEdges(maze, y)
    {
      graph := AddRowEdges(maze, y, graph);
      y := y + 1;
    }
  }

  // ---------------------------------------------------------------------
  // What the graph contains

  lemma {:induction false} RowEdgesMember(maze: Grid, y: nat, n: nat, e: Edge)
    requires Rectangular(maze) && y < |maze| && n <= Width(maze)
    ensures e in RowEdges(maze, y, n) <==> exists x: nat :: x < n && e in CellEdges(maze, x, y)
  {
    if n > 0 {
      RowEdgesMember(maze, y, n - 1, e);
    }
  }

  /** Every edge of the first m rows comes from one of their cells. */
  lemma {:induction false} RowsEdgesSound(maze: Grid, m: nat, e: Edge)
    requires Rectangular(maze) && m <= |maze| && e in RowsEdges(maze, m)
    ensures exists x: nat, y: nat :: y < m && x < Width(maze) && e in CellEdges(maze, x, y)
  {
    if e in RowsEdges(maze, m - 1) {
      RowsEdgesSound(maze, m - 1, e);
    } else {
      RowEdgesMember(maze, m - 1, Width(maze), e);
      var x: nat :| x < Width(maze) && e in CellEdges(maze, x, m - 1);
    }
  }

  /** Every edge of a cell among the first m rows is an edge of those rows. */
  lemma {:induction false} RowsEdgesComplete(maze: Grid, m: nat, x: nat, y: nat, e: Edge)
    requires Rectangular(maze) && m <= |maze| && y < m && x < Width(maze) && e in CellEdges(maze, x, y)
    ensures e in RowsEdges(maze, m)
  {
    if y < m - 1 {
      RowsEdgesComplete(maze, m - 1, x, y, e);
    } else {
      RowEdgesMember(maze, m - 1, Width(maze), e);
    }
  }

  /** An edge is in the graph exactly when some cell of the grid adds it. */
  lemma GraphMember(maze: Grid, e: Edge)
    requires Rectangular(maze)
    ensures e in Graph(maze) <==> exists x: nat, y: nat :: InGrid(maze, x, y) && e in CellEdges(maze, x, y)
  {
    if e in Graph(maze) {
      RowsEdgesSound(maze, |maze|, e);
    }
    if exists x: nat, y: nat :: InGrid(maze, x, y) && e in CellEdges(maze, x, y) {
      var x: nat, y: nat :| InGrid(maze, x, y) && e in CellEdges(maze, x, y);
      RowsEdgesComplete(maze, |maze|, x, y, e);
    }
  }

  /** The edges cell (x, y) adds, listed by kind: to End from an end cell,
      from Start to the upward stop of a wall-bearing start cell, and from a
      wall-bearing cell to each of its slide stops other than itself. */
  predicate Adds(maze: Grid, x: nat, y: nat, e: Edge)
    requires Rectangular(maze) && InGrid(maze, x, y)
  {
    (e == (Coord(x, y), End) && maze[y][x].end) ||
    (HasWall(maze[y][x]) && e == (Start, Coord(x, UpStop(maze, x, y))) && maze[y][x].start) ||
    (HasWall(maze[y][x]) && e.0 == Coord(x, y) && e.1 in Slides(maze, x, y) && e.1 != Coord(x, y))
  }

  lemma CellEdgeCases(maze: Grid, x: nat, y: nat, e: Edge)
    requires Rectangular(maze) && InGrid(maze, x, y)
    ensures e in CellEdges(maze, x, y) <==> Adds(maze, x, y, e)
  {
    if HasWall(maze[y][x]) {
      CellEdgesWalled(maze, x, y);
    }
  }

  /** An edge is in the graph exactly when some cell adds it by one of the
      three rules. */
  lemma GraphAdds(maze: Grid, e: Edge)
    requires Rectangular(maze)
    ensures e in Graph(maze) <==> exists x: nat, y: nat :: InGrid(maze, x, y) && Adds(maze, x, y, e)
  {
    GraphMember(maze, e);
    if e in Graph(maze) {
      var x: nat, y: nat :| InGrid(maze, x, y) && e in CellEdges(maze, x, y);
      CellEdgeCases(maze, x, y, e);
    }
    if exists x: nat, y: nat :: InGrid(maze, x, y) && Adds(maze, x, y, e) {
      var x: nat, y: nat :| InGrid(maze, x, y) && Adds(maze, x, y, e);
      CellEdgeCases(maze, x, y, e);
    }
  }

  /** The edges leaving cell (a, b): to End when it is an end cell, and when
      it has a wall, to each of its slide stops other than itself. Nothing
      else leaves a coordinate. */
  lemma OutgoingEdges(maze: Grid, a: nat, b: nat, n: Node)
    requires Rectangular(maze)
    ensures (Coord(a, b), n) in Graph(maze) <==>
            InGrid(maze, a, b) &&
            ((n == End && maze[b][a].end) ||
             (n.Coord? && HasWall(maze[b][a]) && n in Slides(maze, a, b) && n != Coord(a, b)))
  {
    var e := (Coord(a, b), n);
    GraphAdds(maze, e);
    if e in Graph(maze) {
      var x: nat, y: nat :| InGrid(maze, x, y) && Adds(maze, x, y, e);
      assert x == a && y == b;
    }
    if InGrid(maze, a, b) {
      assert e in Graph(maze) <== Adds(maze, a, b, e);
    }
  }

  /** Every coordinate-to-coordinate edge joins two distinct cells of the
      grid in one row or one column, and is the slide in the direction it
      points to. */
  lemma CoordEdgeShape(maze: Grid, a: nat, b: nat, c: nat, d: nat)
    requires Rectangular(maze) && (Coord(a, b), Coord(c, d)) in Graph(maze)
    ensures InGrid(maze, a, b) && InGrid(maze, c, d) && HasWall(maze[b][a])
    ensures (a == c) != (b == d)
    ensures d > b ==> a == c && d == DownStop(maze, a, b)
    ensures c < a ==> b == d && c == LeftStop(maze, a, b)
    ensures d < b ==> a == c && d == UpStop(maze, a, b)
    ensures c > a ==> b == d && c == RightStop(maze, a, b)
  {
    OutgoingEdges(maze, a, b, Coord(c, d));
  }

  /** The coordinates an edge from n leads to. */
  function CoordSuccessors(graph: set<Edge>, n: Node): set<Node> {
    set e | e in graph && e.0 == n && e.1.Coord? :: e.1
  }

  function Successors(graph: set<Edge>, n: Node): set<Node> {
    set e | e in graph && e.0 == n :: e.1
  }

  lemma {:induction false} SubsetCard<T>(s: set<T>, t: set<T>)
    requires s <= t
    ensures |s| <= |t|
    decreases |t|
  {
    if s != {} {
      var z :| z in s;
      SubsetCard(s - {z}, t - {z});
    }
  }

  /** A cell without walls leads only to End; a cell with walls leads to at
      most four cells, and to at most five nodes counting End. */
  lemma OutDegree(maze: Grid, a: nat, b: nat)
    requires Rectangular(maze)
    ensures |CoordSuccessors(Graph(maze), Coord(a, b))| <= 4
    ensures |Successors(Graph(maze), Coord(a, b))| <= 5
    ensures InGrid(maze, a, b) && !HasWall(maze[b][a]) ==> Successors(Graph(maze), Coord(a, b)) <= {End}
  {
    var here := Coord(a, b);
    var g := Graph(maze);
    var cells, all := CoordSuccessors(g, here), Successors(g, here);
    if InGrid(maze, a, b) {
      var four := Slides(maze, a, b);
      forall n | n in cells ensures n in four {
        OutgoingEdges(maze, a, b, n);
      }
      forall n | n in all ensures n in four + {End} {
        OutgoingEdges(maze, a, b, n);
      }
      SubsetCard(cells, four);
      SubsetCard(all, four + {End});
      if !HasWall(maze[b][a]) {
        forall n | n in all ensures n == End {
          OutgoingEdges(maze, a, b, n);
        }
      }
    } else {
      forall n | n in all ensures false {
        OutgoingEdges(maze, a, b, n);
      }
      assert all == {};
      SubsetCard(cells, all);
    }
  }

  /** Start leads to (x, s) exactly when some wall-bearing start cell (x, y)
      has s as its upward stop; s may be y itself. */
  lemma StartRule(maze: Grid, n: Node)
    requires Rectangular(maze)
    ensures (Start, n) in Graph(maze) <==>
            exists x: nat, y: nat :: InGrid(maze, x, y) && HasWall(maze[y][x]) && maze[y][x].start &&
                                     n == Coord(x, UpStop(maze, x, y))
  {
    var e := (Start, n);
    GraphAdds(maze, e);
    if e in Graph(maze) {
      var x: nat, y: nat :| InGrid(maze, x, y) && Adds(maze, x, y, e);
    } else {
      forall x: nat, y: nat | InGrid(maze, x, y) && HasWall(maze[y][x]) && maze[y][x].start
        ensures n != Coord(x, UpStop(maze, x, y))
      {
        assert !Adds(maze, x, y, e);
      }
    }
  }

  /** A start cell with a top wall is entered from Start without moving. */
  lemma StartOnTopWall(maze: Grid, x: nat, y: nat)
    requires Rectangular(maze) && InGrid(maze, x, y)
    requires maze[y][x].start && maze[y][x].top
    ensures (Start, Coord(x, y)) in Graph(maze)
  {
    StartRule(maze, Coord(x, y));
  }

  /** Cell (x, y) leads to End exactly when it is an end cell; only cells
      lead to End. */
  lemma EndRule(maze: Grid, n: Node)
    requires Rectangular(maze)
    ensures (n, End) in Graph(maze) <==> n.Coord? && InGrid(maze, n.x, n.y) && maze[n.y][n.x].end
  {
    var e := (n, End);
    GraphAdds(maze, e);
    if e in Graph(maze) {
      var x: nat, y: nat :| InGrid(maze, x, y) && Adds(maze, x, y, e);
    }
    if n.Coord? && InGrid(maze, n.x, n.y) {
      assert e in Graph(maze) <== Adds(maze, n.x, n.y, e);
    }
  }

  /** No edge leaves End and no edge enters Start. */
  lemma Sentinels(maze: Grid, e: Edge)
    requires Rectangular(maze) && e in Graph(maze)
    ensures e.0 != End && e.1 != Start
  {
    GraphAdds(maze, e);
    var x: nat, y: nat :| InGrid(maze, x, y) && Adds(maze, x, y, e);
  }
}

/** The whole solve of one maze image: parse the grid, build the slide
    graph, find a shortest path from Start to End, and encode it. */
module Solver {
  import opened Maze
  import opened SlideGraph
  import opened PathSearch
  import opened Encoder

  /** Every walk from Start to End in a slide graph passes through at least
      one cell, and all its inner nodes are cells. */
  lemma {:induction false} PathThroughCells(maze: Grid, p: seq<Node>)
    requires Rectangular(maze) && IsPath(Graph(maze), p, Start, End)
    ensures |p| >= 3 && InteriorCoords(p)
  {
    var g := Graph(maze);
    assert |p| >= 2;
    Sentinels(maze, (p[|p| - 2], p[|p| - 1]));
    EndRule(maze, p[|p| - 2]);
    forall i | 1 <= i < |p| - 1 ensures p[i].Coord? {
      Sentinels(maze, (p[i - 1], p[i]));
      Sentinels(maze, (p[i], p[i + 1]));
    }
  }

  /** Without an end cell there is no End node; without a wall-bearing
      start cell there is no Start node. */
  lemma MissingMarkers(maze: Grid)
    requires Rectangular(maze)
    ensures (forall x: nat, y: nat :: InGrid(maze, x, y) ==> !maze[y][x].end) ==> End !in Nodes(Graph(maze))
    ensures (forall x: nat, y: nat :: InGrid(maze, x, y) && HasWall(maze[y][x]) ==> !maze[y][x].start) ==>
            Start !in Nodes(Graph(maze))
  {
    var g := Graph(maze);
    if End in Nodes(g) {
      var e :| e in g && (e.0 == End || e.1 == End);
      Sentinels(maze, e);
      EndRule(maze, e.0);
    }
    if Start in Nodes(g) {
      var e :| e in g && (e.0 == Start || e.1 == Start);
      Sentinels(maze, e);
      StartRule(maze, e.1);
    }
  }

  /** Solves the maze drawn in an image of the given size. */
  method FindPath(width: nat, height: nat, img: Image) returns (r: Result<string>)
    ensures var g := Graph(Parse(width, height, img));
            (r == Err(NodeNotFound) <==> Start !in Nodes(g) || End !in Nodes(g)) &&
            (r == Err(NoPath) <==> Start in Nodes(g) && End in Nodes(g) && !Connected(g, Start, End)) &&
            (r.Ok? ==> exists p :: IsShortestPath(g, p, Start, End) && InteriorCoords(p) &&
                                   r.value == Moves(p))
  {
    var maze := BuildMaze(width, height, img);
    var graph := BuildGraph(maze);
    var path := ShortestPath(graph, Start, End);
    match path {
      case Err(e) =>
        return Err(e);
      case Ok(p) =>
        PathThroughCells(maze, p);
        var pathStr := EncodeMoves(p);
        return Ok(pathStr);
    }
  }

  /** Every Start-to-End walk of a slide graph, shortest or not, encodes as a
      string that starts and ends with North and uses only N, S, E and O,
      one letter per step between cells. */
  lemma SolvedMoves(maze: Grid, p: seq<Node>)
    requires Rectangular(maze) && IsPath(Graph(maze), p, Start, End)
    ensures InteriorCoords(p) && AxisSteps(p)
    ensures var m := Moves(p); m[0] == 'N' && m[|m| - 1] == 'N'
    ensures forall k :: 0 <= k < |Moves(p)| ==> MoveLetter(Moves(p)[k])
    ensures |Moves(p)| == |p| - 2 || |Moves(p)| == |p| - 1
  {
    PathThroughCells(maze, p);
    forall i | 1 <= i < |p| - 2 ensures (p[i].x == p[i + 1].x) != (p[i].y == p[i + 1].y) {
      CoordEdgeShape(maze, p[i].x, p[i].y, p[i + 1].x, p[i + 1].y);
    }
    MovesShape(p);
    OneLetterPerStep(p);
  }

  // ---------------------------------------------------------------------
  // A worked example: one row of two cells, the start cell on the left
  // with a left wall, the end cell on the right with a right wall.

  const OneRow: Grid := [[Case(false, false, false, true, true, false),
                          Case(false, true, false, false, false, true)]]

  /** The slide graph of that row: Start enters the left cell, each cell
      slides to the other, and the right cell leads to End. */
  lemma OneRowGraph()
    ensures Rectangular(OneRow)
    ensures Graph(OneRow) == {(Start, Coord(0, 0)), (Coord(0, 0), Coord(1, 0)),
                              (Coord(1, 0), Coord(0, 0)), (Coord(1, 0), End)}
  {
    assert RightStop(OneRow, 0, 0) == 1;
    assert LeftStop(OneRow, 1, 0) == 0;
    assert CellEdges(OneRow, 0, 0) == {(Start, Coord(0, 0)), (Coord(0, 0), Coord(1, 0))};
    assert CellEdges(OneRow, 1, 0) == {(Coord(1, 0), Coord(0, 0)), (Coord(1, 0), End)};
    assert Graph(OneRow) == RowEdges(OneRow, 0, 2);
  }

  /** Solving that row: its only shortest path slides east once, so every
      image parsed as this grid yields "NEN". */
  lemma OneRowSolve()
    ensures Rectangular(OneRow)
    ensures var g := Graph(OneRow);
            Start in Nodes(g) && End in Nodes(g) && Connected(g, Start, End) &&
            forall p :: IsShortestPath(g, p, Start, End) ==> InteriorCoords(p) && Moves(p) == "NEN"
  {
    OneRowGraph();
    var g := Graph(OneRow);
    var best := [Start, Coord(0, 0), Coord(1, 0), End];
    assert (Start, Coord(0, 0)) in g && (Coord(1, 0), End) in g;
    assert IsPath(g, best, Start, End);
    forall p | IsShortestPath(g, p, Start, End) ensures InteriorCoords(p) && Moves(p) == "NEN" {
      PathThroughCells(OneRow, p);
      assert |p| <= 4;
      assert (p[0], p[1]) in g && p[1] == Coord(0, 0);
      assert (p[|p| - 2], p[|p| - 1]) in g && p[|p| - 2] == Coord(1, 0);
      assert p == best;
      assert Steps(best, 2) == "NE";
    }
  }
}

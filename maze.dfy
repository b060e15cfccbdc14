/** The maze as the solver reads it: a rectangular grid of cells, each with
    four wall flags and the start/end marker flags, classified from fixed
    pixel probes of a rendered image whose cells are 64 pixels square. */
module Maze {

  /** One grid unit: a wall on each of its four sides, and the two markers. */
  datatype Case = Case(top: bool, right: bool, bottom: bool, left: bool, start: bool, end: bool)

  /** An RGB triple as returned by the image's pixel reader. */
  type Pixel = (int, int, int)

  /** The image, seen only through its pixel reader. */
  type Image = (int, int) -> Pixel

  const CaseSize: nat := 64
  const WallColour: Pixel := (0, 0, 255)
  const MarkerColour: Pixel := (229, 20, 0)

  type Grid = seq<seq<Case>>

  /** Every row has as many cells as the first one. */
  predicate Rectangular(maze: Grid) {
    forall y :: 0 <= y < |maze| ==> |maze[y]| == |maze[0]|
  }

  /** Number of columns; an empty grid has none. */
  function Width(maze: Grid): nat {
    if |maze| == 0 then 0 else |maze[0]|
  }

  predicate InGrid(maze: Grid, x: int, y: int) {
    0 <= y < |maze| && 0 <= x < Width(maze)
  }

  predicate HasWall(c: Case) {
    c.top || c.right || c.bottom || c.left
  }

  /** The cell whose top-left pixel is (caseX, caseY): four wall probes near
      the edge midpoints, one marker probe below the cell (start) and one
      above it (end). */
  function Classify(img: Image, caseX: int, caseY: int): Case {
    Case(img(caseX + 10, caseY) == WallColour,
         img(caseX + CaseSize - 1, caseY + 10) == WallColour,
         img(caseX + 10, caseY + CaseSize - 1) == WallColour,
         img(caseX, caseY + 10) == WallColour,
         img(caseX + 30, caseY + CaseSize + 25) == MarkerColour,
         img(caseX + 30, caseY - 15) == MarkerColour)
  }

  /** Rows of the playable area: image rows 2 .. height/64 - 2. */
  function Rows(height: nat): nat {
    if height / CaseSize >= 3 then height / CaseSize - 3 else 0
  }

  /** Columns of the playable area: image columns 1 .. width/64 - 2. */
  function Cols(width: nat): nat {
    if width / CaseSize >= 2 then width / CaseSize - 2 else 0
  }

  /** The grid parsed from an image of the given size. */
  ghost function Parse(width: nat, height: nat, img: Image): (maze: Grid)
    ensures Rectangular(maze)
  {
    seq(Rows(height), y => seq(Cols(width), x => Classify(img, (x + 1) * CaseSize, (y + 2) * CaseSize)))
  }

  /** Builds the grid row by row: cell (x, y) is read from pixel block
      (x + 1, y + 2), so the top of the image loses two block rows and every
      other side one block. */
  method BuildMaze(width: nat, height: nat, img: Image) returns (maze: Grid)
    ensures |maze| == Rows(height)
    ensures forall y :: 0 <= y < |maze| ==> |maze[y]| == Cols(width)
    ensures forall y, x :: 0 <= y < |maze| && 0 <= x < |maze[y]| ==>
              maze[y][x] == Classify(img, (x + 1) * CaseSize, (y + 2) * CaseSize)
    ensures Rectangular(maze)
    ensures maze == Parse(width, height, img)
  {
    var maxX := width / CaseSize - 1;
    var maxY := height / CaseSize - 1;
    maze := [];
    var y := 2;
    while y < maxY
      invariant 2 <= y && (y <= maxY || y == 2)
      invariant |maze| == y - 2
      invariant forall r :: 0 <= r < |maze| ==> |maze[r]| == Cols(width)
      invariant forall r, c :: 0 <= r < |maze| && 0 <= c < |maze[r]| ==>
                  maze[r][c] == Classify(img, (c + 1) * CaseSize, (r + 2) * CaseSize)
    {
      var row: seq<Case> := [];
      var x := 1;
      while x < maxX
        invariant 1 <= x && (x <= maxX || x == 1)
        invariant |row| == x - 1
        invariant forall c :: 0 <= c < |row| ==> row[c] == Classify(img, (c + 1) * CaseSize, y * CaseSize)
      {
        row := row + [Classify(img, x * CaseSize, y * CaseSize)];
        x := x + 1;
      }
      maze := maze + [row];
      y := y + 1;
    }
    ghost var parsed := Parse(width, height, img);
    forall r | 0 <= r < |maze| ensures maze[r] == parsed[r] {
      assert |parsed[r]| == Cols(width);
    }
  }
}

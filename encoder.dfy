/** The move string: one letter per change of coordinate between
    consecutive cells of the path, after a leading North, with a North
    added at the end unless the string already ends with one. West is
    written 'O' (ouest). */
module Encoder {
  import opened SlideGraph

  /** Every node but the first and the last is a grid coordinate. */
  predicate InteriorCoords(path: seq<Node>) {
    forall i :: 1 <= i < |path| - 1 ==> path[i].Coord?
  }

  /** The letters of one step: S when y grows, N when it shrinks, E when x
      grows, O when it shrinks, in that order. */
  function StepLetters(a: Node, b: Node): string
    requires a.Coord? && b.Coord?
  {
    (if a.y < b.y then "S" else "") + (if a.y > b.y then "N" else "") +
    (if a.x < b.x then "E" else "") + (if a.x > b.x then "O" else "")
  }

  /** The leading North, then the letters of the steps path[i] -> path[i + 1]
      for 1 <= i < hi. */
  function Steps(path: seq<Node>, hi: int): (r: string)
    requires InteriorCoords(path) && (hi <= 1 || hi <= |path| - 2)
    ensures |r| >= 1 && r[0] == 'N'
    decreases hi
  {
    if hi <= 1 then "N" else Steps(path, hi - 1) + StepLetters(path[hi - 1], path[hi])
  }

  /** The move string of a path from Start to End: the steps between its
      interior nodes, the sentinels left out. */
  function Moves(path: seq<Node>): string
    requires InteriorCoords(path)
  {
    var body := Steps(path, |path| - 2);
    if body[|body| - 1] != 'N' then body + "N" else body
  }

  /** The letters one step adds, one test per direction. */
  method AppendStep(pathStr: string, a: Node, b: Node) returns (pathStr': string)
    requires a.Coord? && b.Coord?
    ensures pathStr' == pathStr + StepLetters(a, b)
  {
    pathStr' := pathStr;
    if a.y < b.y {
      pathStr' := pathStr' + "S";
    }
    if a.y > b.y {
      pathStr' := pathStr' + "N";
    }
    if a.x < b.x {
      pathStr' := pathStr' + "E";
    }
    if a.x > b.x {
      pathStr' := pathStr' + "O";
    }
  }

  /** The loop over the interior steps, after the leading North. */
  method EncodeSteps(path: seq<Node>) returns (pathStr: string)
    requires InteriorCoords(path)
    ensures pathStr == Steps(path, |path| - 2)
  {
    pathStr := "N";
    var i := 1;
    while i < |path| - 2
      invariant 1 <= i && (i <= |path| - 2 || i == 1)
      invariant pathStr == Steps(path, i)
    {
      pathStr := AppendStep(pathStr, path[i], path[i + 1]);
      assert pathStr == Steps(path, i + 1);
      i := i + 1;
    }
  }

  /** The encoder: the steps, then a closing North unless the string already
      ends with one. */
  method EncodeMoves(path: seq<Node>) returns (pathStr: string)
    requires InteriorCoords(path)
    ensures pathStr == Moves(path)
  {
    pathStr := EncodeSteps(path);
    if pathStr[|pathStr| - 1] != 'N' {
      pathStr := pathStr + "N";
    }
  }

  // ---------------------------------------------------------------------
  // What the move string looks like

  predicate MoveLetter(c: char) {
    c == 'N' || c == 'S' || c == 'E' || c == 'O'
  }

  lemma {:induction false} StepsLetters(path: seq<Node>, hi: int)
    requires InteriorCoords(path) && (hi <= 1 || hi <= |path| - 2)
    ensures forall k :: 0 <= k < |Steps(path, hi)| ==> MoveLetter(Steps(path, hi)[k])
    decreases hi
  {
    if hi > 1 {
      StepsLetters(path, hi - 1);
    }
  }

  /** The move string starts and ends with North and has only the letters
      N, S, E and O. */
  lemma MovesShape(path: seq<Node>)
    requires InteriorCoords(path)
    ensures var m := Moves(path); |m| >= 1 && m[0] == 'N' && m[|m| - 1] == 'N'
    ensures forall k :: 0 <= k < |Moves(path)| ==> MoveLetter(Moves(path)[k])
  {
    StepsLetters(path, |path| - 2);
  }

  /** A path with at most one interior node encodes as "N". */
  lemma ShortPathMoves(path: seq<Node>)
    requires InteriorCoords(path) && |path| <= 3
    ensures Moves(path) == "N"
  {
  }

  /** The single letter of a step that changes exactly one coordinate. */
  function Letter(a: Node, b: Node): (c: char)
    requires a.Coord? && b.Coord?
  {
    if a.y < b.y then 'S' else if a.y > b.y then 'N' else if a.x < b.x then 'E' else 'O'
  }

  /** Every interior step changes exactly one coordinate, as slide edges do. */
  predicate AxisSteps(path: seq<Node>)
    requires InteriorCoords(path)
  {
    forall i :: 1 <= i < |path| - 2 ==> (path[i].x == path[i + 1].x) != (path[i].y == path[i + 1].y)
  }

  lemma {:induction false} StepsOneLetterEach(path: seq<Node>, hi: int)
    requires InteriorCoords(path) && AxisSteps(path) && (hi <= 1 || hi <= |path| - 2)
    ensures |Steps(path, hi)| == if hi <= 1 then 1 else hi
    ensures forall k :: 1 <= k < |Steps(path, hi)| ==> Steps(path, hi)[k] == Letter(path[k], path[k + 1])
    decreases hi
  {
    if hi > 1 {
      StepsOneLetterEach(path, hi - 1);
    }
  }

  /** On a path whose steps each change one coordinate, the move string is
      North, then exactly one letter per step between coordinates, then a
      North only when the last letter is not one. */
  lemma OneLetterPerStep(path: seq<Node>)
    requires InteriorCoords(path) && AxisSteps(path)
    ensures var n := if |path| <= 3 then 0 else |path| - 3;
            var m := Moves(path);
            (|m| == n + 1 || |m| == n + 2) && m[0] == 'N' &&
            (|m| == n + 1 <==> m[n] == 'N') && m[|m| - 1] == 'N' &&
            forall k :: 1 <= k <= n ==> m[k] == Letter(path[k], path[k + 1])
  {
    StepsOneLetterEach(path, |path| - 2);
  }

  /** A path that goes west along the top row, then south down the first
      column, encodes as "NOSN". The final North is added because the last
      letter is S. */
  lemma WestThenSouth()
    ensures Moves([Start, Coord(2, 0), Coord(0, 0), Coord(0, 3), End]) == "NOSN"
  {
  }
}

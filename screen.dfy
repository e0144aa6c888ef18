/**
 * What screen_update writes to the two display lines: one glyph code per
 * column, 16 per line. Code 0 is the dino's custom character, 1 and 2 the
 * cactus and bird characters (the obstacle's pattern), and ' ' an empty cell.
 */
module Screen {
  import opened Obstacles

  const DinoGlyph: int := 0
  /** The character code of ' '. */
  const BlankGlyph: int := 32

  /** The code written for cell (col, row) of the playfield. */
  function CellGlyph(s: seq<Slot>, dinoRow: int, row: int, col: int): int {
    if col == DinoCol && dinoRow == row then DinoGlyph
    else
      var p := ObstacleAt(s, col, row);
      if p != 0 then p else BlankGlyph
  }

  /** One display line: the cells of one row, column 0 first. */
  function Line(s: seq<Slot>, dinoRow: int, row: int): (line: seq<int>)
    ensures |line| == PlayfieldCols
  {
    seq(PlayfieldCols, col requires 0 <= col < PlayfieldCols => CellGlyph(s, dinoRow, row, col))
  }

  /** The two lines screen_update sends: row 0 on the first display line, row 1 on the second. */
  function Render(s: seq<Slot>, dinoRow: int): (lines: seq<seq<int>>)
    ensures |lines| == 2 && |lines[0]| == PlayfieldCols && |lines[1]| == PlayfieldCols
  {
    [Line(s, dinoRow, 0), Line(s, dinoRow, 1)]
  }

  /**
   * Each rendered cell shows the dino exactly on the dino's cell; elsewhere it
   * is blank exactly when no active obstacle stands there, and otherwise shows
   * the pattern of the lowest-index active slot on that cell.
   */
  lemma RenderCell(s: seq<Slot>, dinoRow: int, row: int, col: int)
    requires TableOk(s) && 0 <= row <= 1 && 0 <= col < PlayfieldCols
    ensures Render(s, dinoRow)[row][col] == DinoGlyph <==> col == DinoCol && row == dinoRow
    ensures Render(s, dinoRow)[row][col] == BlankGlyph <==>
      !(col == DinoCol && row == dinoRow) && !Collides(s, col, row)
    ensures forall i ::
      (0 <= i < |s| && !(col == DinoCol && row == dinoRow) && Occupies(s[i], col, row) &&
       forall j :: 0 <= j < i ==> !Occupies(s[j], col, row)) ==>
      Render(s, dinoRow)[row][col] == s[i].pattern
  {
    CollidesIffObstacleAt(s, col, row);
    if Collides(s, col, row) {
      var i :| 0 <= i < |s| && Occupies(s[i], col, row);
      FirstOccupant(s, col, row, i);
    }
  }

  /** Some slot on the cell is the lowest-index one, so ObstacleAt returns a real pattern. */
  lemma {:induction false} FirstOccupant(s: seq<Slot>, col: int, row: int, i: int)
    requires forall k :: 0 <= k < |s| ==> SlotOk(s[k])
    requires 0 <= i < |s| && Occupies(s[i], col, row)
    ensures ObstacleAt(s, col, row) == CactusPattern || ObstacleAt(s, col, row) == BirdPattern
    decreases i
  {
    if exists j :: 0 <= j < i && Occupies(s[j], col, row) {
      var j :| 0 <= j < i && Occupies(s[j], col, row);
      FirstOccupant(s, col, row, j);
    }
  }
}

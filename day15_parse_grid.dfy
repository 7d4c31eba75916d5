/// `GridOperations.ParseGrid` (Day15/GridOperations.cs): the map text, one
/// line per row, becomes a grid array of walls, floor, goblins and elves,
/// with goblins and elves numbered separately in reading order.
module Day15ParseGrid {
  import opened Wrappers
  import opened Day15GridCell
  import opened Day15GridOperations

  /// `char.IsWhiteSpace`: the Unicode space separators, the line and
  /// paragraph separators, and the control characters U+0009..U+000D and
  /// U+0085.
  predicate IsWhiteSpace(c: char)
  {
    ('\t' <= c <= '\r') || c == ' ' || c == '\U{85}' || c == '\U{A0}' || c == '\U{1680}' ||
    ('\U{2000}' <= c <= '\U{200A}') || c == '\U{2028}' || c == '\U{2029}' || c == '\U{202F}' ||
    c == '\U{205F}' || c == '\U{3000}'
  }

  /// `string.IsNullOrWhiteSpace`.
  predicate Blank(s: string)
  {
    forall i :: 0 <= i < |s| ==> IsWhiteSpace(s[i])
  }

  /// The lines the parser reads, in order: the non-blank ones.
  function NonBlank(lines: seq<string>): (r: seq<string>)
    ensures |r| <= |lines|
  {
    if lines == [] then []
    else
      var n := |lines| - 1;
      NonBlank(lines[..n]) + (if Blank(lines[n]) then [] else [lines[n]])
  }

  /// The non-blank lines are exactly the lines that are not blank.
  lemma {:induction false} NonBlankMembers(lines: seq<string>)
    ensures forall row :: row in NonBlank(lines) <==> row in lines && !Blank(row)
  {
    if lines != [] {
      var n := |lines| - 1;
      NonBlankMembers(lines[..n]);
      assert lines == lines[..n] + [lines[n]];
    }
  }

  /// Only the four map characters.
  predicate MapLine(line: string)
  {
    forall i :: 0 <= i < |line| ==> line[i] in "#.GE"
  }

  /// Occurrences of `ch` in `s`.
  function CharCount(s: string, ch: char): nat
  {
    if s == [] then 0
    else CharCount(s[..|s| - 1], ch) + if s[|s| - 1] == ch then 1 else 0
  }

  /// Occurrences of `ch` in all of `rows`.
  function RowsCount(rows: seq<string>, ch: char): nat
  {
    if rows == [] then 0
    else RowsCount(rows[..|rows| - 1], ch) + CharCount(rows[|rows| - 1], ch)
  }

  /// The cell a map character stands for, given the id the next goblin and
  /// the next elf would get.
  function CellFor(c: char, goblinId: int, elfId: int): GridCell
  {
    if c == '#' then Wall()
    else if c == '.' then Empty()
    else if c == 'G' then Goblin(goblinId)
    else Elf(elfId)
  }

  /// The cells of one line, when `goblins` goblins and `elves` elves came
  /// before it.
  function LineCells(line: string, goblins: int, elves: int): (r: seq<GridCell>)
    ensures |r| == |line|
  {
    if line == [] then []
    else
      var n := |line| - 1;
      LineCells(line[..n], goblins, elves) +
      [CellFor(line[n], goblins + CharCount(line[..n], 'G'), elves + CharCount(line[..n], 'E'))]
  }

  /// Cell `x` of a line is numbered by the units before it on the line.
  lemma {:induction false} LineCellAt(line: string, goblins: int, elves: int, x: int)
    requires 0 <= x < |line|
    ensures LineCells(line, goblins, elves)[x] ==
      CellFor(line[x], goblins + CharCount(line[..x], 'G'), elves + CharCount(line[..x], 'E'))
  {
    var n := |line| - 1;
    if x < n {
      LineCellAt(line[..n], goblins, elves, x);
      assert line[..n][..x] == line[..x];
    }
  }

  /// The rows the non-blank lines parse to.
  function ParsedRows(rows: seq<string>): (r: seq<seq<GridCell>>)
    ensures |r| == |rows| && forall y :: 0 <= y < |r| ==> |r[y]| == |rows[y]|
  {
    if rows == [] then []
    else
      var n := |rows| - 1;
      ParsedRows(rows[..n]) + [LineCells(rows[n], RowsCount(rows[..n], 'G'), RowsCount(rows[..n], 'E'))]
  }

  /// Every row has the given width and only map characters.
  predicate WellShaped(rows: seq<string>, width: int)
  {
    forall row :: row in rows ==> |row| == width && MapLine(row)
  }

  /// The grid of parsed rows, padded with empty rows to `height`.
  function Padded(rows: seq<string>, height: int, width: int): (r: Grid)
    requires |rows| <= height && 0 <= width && WellShaped(rows, width)
    ensures |r| == height && forall y :: 0 <= y < height ==> |r[y]| == width
    ensures Rect(r) && Width(r) == if height == 0 then 0 else width
  {
    ParsedRowsShape(rows, width);
    ParsedRows(rows) + seq(height - |rows|, _ => seq(width, _ => Empty()))
  }

  lemma ParsedRowsShape(rows: seq<string>, width: int)
    requires WellShaped(rows, width)
    ensures forall y :: 0 <= y < |rows| ==> |ParsedRows(rows)[y]| == width
  {
    forall y | 0 <= y < |rows|
      ensures |ParsedRows(rows)[y]| == width
    {
      assert rows[y] in rows;
    }
  }

  /// What `ParseGrid` produces: an error for no lines at all (the first
  /// line is read unconditionally) and for a non-blank line of the wrong
  /// length or with a character outside the map alphabet; otherwise a grid
  /// with as many rows as there are lines, the parsed non-blank lines first
  /// and the rows left over empty.
  function Parse(lines: seq<string>): (r: Result<Grid>)
    ensures r.Failure? ==> r.error == if |lines| == 0 then ArgumentOutOfRange else Argument
  {
    if |lines| == 0 then Failure(ArgumentOutOfRange)
    else if !WellShaped(NonBlank(lines), |lines[0]|) then Failure(Argument)
    else Success(Padded(NonBlank(lines), |lines|, |lines[0]|))
  }

  /// The parse fails exactly when there are no lines, or some non-blank
  /// line has a length other than the first line's or a character outside
  /// the map alphabet; otherwise the grid is as tall as the input and as
  /// wide as its first line.
  lemma ParseFails(lines: seq<string>)
    ensures Parse(lines).Failure? <==>
      |lines| == 0 ||
      exists row :: row in lines && !Blank(row) && (|row| != |lines[0]| || !MapLine(row))
    ensures Parse(lines).Success? ==>
      var g := Parse(lines).value;
      |g| == |lines| && forall y :: 0 <= y < |g| ==> |g[y]| == |lines[0]|
  {
    NonBlankMembers(lines);
    if |lines| > 0 && !WellShaped(NonBlank(lines), |lines[0]|) {
      var row :| row in NonBlank(lines) && (|row| != |lines[0]| || !MapLine(row));
      assert row in lines && !Blank(row);
    }
  }

  // ---------------------------------------------------------------------
  // What the numbering means
  // ---------------------------------------------------------------------

  /// The counts of a one-longer prefix.
  lemma CharCountNext(s: string, x: int, ch: char)
    requires 0 <= x < |s|
    ensures CharCount(s[..x + 1], ch) == CharCount(s[..x], ch) + if s[x] == ch then 1 else 0
  {
    assert s[..x + 1][..x] == s[..x];
  }

  /// Counting is monotone along prefixes, and strictly past an occurrence.
  lemma {:induction false} CharCountPrefix(s: string, i: int, j: int, ch: char)
    requires 0 <= i < j <= |s|
    ensures CharCount(s[..i], ch) + (if s[i] == ch then 1 else 0) <= CharCount(s[..j], ch)
    decreases j - i
  {
    CharCountNext(s, i, ch);
    if i + 1 < j {
      CharCountPrefix(s, i + 1, j, ch);
      CharCountNext(s, i + 1, ch);
    }
  }

  /// Row counts are monotone along prefixes of the rows.
  lemma {:induction false} RowsCountPrefix(rows: seq<string>, i: int, j: int, ch: char)
    requires 0 <= i <= j <= |rows|
    ensures RowsCount(rows[..i], ch) <= RowsCount(rows[..j], ch)
    decreases j - i
  {
    if i < j {
      RowsCountPrefix(rows, i, j - 1, ch);
      assert rows[..j][..j - 1] == rows[..j - 1];
    }
  }

  /// The number of `ch` before position `(x, y)` in reading order.
  function Before(rows: seq<string>, y: int, x: int, ch: char): nat
    requires 0 <= y < |rows| && 0 <= x <= |rows[y]|
  {
    RowsCount(rows[..y], ch) + CharCount(rows[y][..x], ch)
  }

  /// Row `y` is parsed with the units of the rows above it already counted.
  lemma {:induction false} ParsedRow(rows: seq<string>, y: int)
    requires 0 <= y < |rows|
    ensures ParsedRows(rows)[y] == LineCells(rows[y], RowsCount(rows[..y], 'G'), RowsCount(rows[..y], 'E'))
    decreases |rows|
  {
    var n := |rows| - 1;
    if y < n {
      ParsedRow(rows[..n], y);
      assert rows[..n][..y] == rows[..y];
    }
  }

  /// The cell parsed at `(x, y)` is the one its character stands for, a
  /// unit numbered by how many units of its faction come before it.
  lemma ParsedCell(rows: seq<string>, y: int, x: int)
    requires 0 <= y < |rows| && 0 <= x < |rows[y]|
    ensures ParsedRows(rows)[y][x] == CellFor(rows[y][x], Before(rows, y, x, 'G'), Before(rows, y, x, 'E'))
  {
    ParsedRow(rows, y);
    LineCellAt(rows[y], RowsCount(rows[..y], 'G'), RowsCount(rows[..y], 'E'), x);
  }

  /// Strictly fewer units of a faction come before `p` than before `q`
  /// when such a unit stands at `p` and `p` reads before `q`.
  lemma BeforeIncreases(rows: seq<string>, p: Pos, q: Pos, ch: char)
    requires 0 <= p.y < |rows| && 0 <= p.x < |rows[p.y]| && 0 <= q.y < |rows| && 0 <= q.x <= |rows[q.y]|
    requires ReadsBefore(p, q) && rows[p.y][p.x] == ch
    ensures Before(rows, p.y, p.x, ch) < Before(rows, q.y, q.x, ch)
  {
    if p.y == q.y {
      CharCountPrefix(rows[p.y], p.x, q.x, ch);
    } else {
      var row := rows[p.y];
      CharCountPrefix(row, p.x, |row|, ch);
      assert row[..|row|] == row;
      assert rows[..p.y + 1][..p.y] == rows[..p.y];
      RowsCountPrefix(rows, p.y + 1, q.y, ch);
    }
  }

  /// Everything counted before a position is within the total.
  lemma BeforeBounded(rows: seq<string>, y: int, x: int, ch: char)
    requires 0 <= y < |rows| && 0 <= x < |rows[y]| && rows[y][x] == ch
    ensures Before(rows, y, x, ch) < RowsCount(rows, ch)
  {
    var row := rows[y];
    CharCountPrefix(row, x, |row|, ch);
    assert row[..|row|] == row;
    assert rows[..y + 1][..y] == rows[..y];
    RowsCountPrefix(rows, y + 1, |rows|, ch);
    assert rows[..|rows|] == rows;
  }

  /// The id a goblin (`'G'`) or elf (`'E'`) cell carries for its own faction.
  function UnitId(c: GridCell, ch: char): Option<int>
  {
    if ch == 'G' then c.goblinId else c.elfId
  }

  /// Goblins are numbered 0, 1, 2, ... in reading order, and elves
  /// likewise, independently: a unit's id is below the number of units of
  /// its faction, and a unit read earlier has the smaller id.
  lemma ReadingOrderIds(rows: seq<string>, p: Pos, q: Pos, ch: char)
    requires ch == 'G' || ch == 'E'
    requires 0 <= p.y < |rows| && 0 <= p.x < |rows[p.y]| && 0 <= q.y < |rows| && 0 <= q.x < |rows[q.y]|
    requires rows[p.y][p.x] == ch
    ensures var c := ParsedRows(rows)[p.y][p.x];
      (if ch == 'G' then c.isGoblin else c.isElf) &&
      UnitId(c, ch).Some? && 0 <= UnitId(c, ch).value < RowsCount(rows, ch)
    ensures var c, d := ParsedRows(rows)[p.y][p.x], ParsedRows(rows)[q.y][q.x];
      ReadsBefore(p, q) && rows[q.y][q.x] == ch ==>
        UnitId(d, ch).Some? && UnitId(c, ch).value < UnitId(d, ch).value
  {
    ParsedCell(rows, p.y, p.x);
    ParsedCell(rows, q.y, q.x);
    BeforeBounded(rows, p.y, p.x, ch);
    if ReadsBefore(p, q) {
      BeforeIncreases(rows, p, q, ch);
    }
  }

  // ---------------------------------------------------------------------
  // The parser
  // ---------------------------------------------------------------------

  /// The non-blank lines among one more line.
  lemma NonBlankNext(lines: seq<string>, i: int)
    requires 0 <= i < |lines|
    ensures NonBlank(lines[..i + 1]) == NonBlank(lines[..i]) + if Blank(lines[i]) then [] else [lines[i]]
  {
    assert lines[..i + 1][..i] == lines[..i];
  }

  /// `ParseGrid(lines)`: rows are written as the non-blank lines are met;
  /// the first wrong length or unknown character aborts the parse.
  method ParseGrid(lines: seq<string>) returns (r: Result<array2<GridCell>>)
    ensures r.Failure? <==> Parse(lines).Failure?
    ensures r.Failure? ==> r.error == Parse(lines).error
    ensures r.Success? ==> fresh(r.value) && Snapshot(r.value) == Parse(lines).value
  {
    if |lines| == 0 {
      return Failure(ArgumentOutOfRange);
    }
    var grid := new GridCell[|lines|, |lines[0]|]((_, _) => Empty());
    ghost var rows := NonBlank(lines);
    var ok := FillRows(lines, grid);
    if !ok {
      return Failure(Argument);
    }
    ParsedGrid(rows, grid);
    r := Success(grid);
  }

  /// The row loop of `ParseGrid`: writes the cells of each non-blank line
  /// into the next row of `grid`, numbering units on across rows, and stops
  /// with `false` at the first line of the wrong width or with a character
  /// outside the map alphabet.
  method FillRows(lines: seq<string>, grid: array2<GridCell>) returns (ok: bool)
    requires |lines| > 0 && grid.Length0 == |lines| && grid.Length1 == |lines[0]|
    requires Placed(grid, ParsedRows(NonBlank(lines)), 0)
    modifies grid
    ensures ok <==> WellShaped(NonBlank(lines), |lines[0]|)
    ensures ok ==> Placed(grid, ParsedRows(NonBlank(lines)), |NonBlank(lines)|)
  {
    var y, nextGoblinId, nextElfId := 0, 0, 0;
    ghost var rows: seq<string>, target := [], ParsedRows(NonBlank(lines));
    ok := true;
    var i := 0;
    while i < |lines| && ok
      invariant 0 <= i <= |lines|
      invariant ok ==> Progress(lines, i, rows, nextGoblinId, nextElfId) && y == |rows| && Placed(grid, target, y)
      invariant !ok ==> !WellShaped(NonBlank(lines), |lines[0]|)
    {
      ok, y, nextGoblinId, nextElfId, rows := FillRow(lines, i, grid, y, nextGoblinId, nextElfId, rows);
      i := i + 1;
    }
    if ok {
      ProgressAll(lines, rows, nextGoblinId, nextElfId);
    }
  }

  /// One pass of the row loop of `ParseGrid`: a blank line is skipped; a
  /// non-blank one of the right width in the map alphabet is written to row
  /// `y`; any other line ends the parse with `false`.
  method FillRow(lines: seq<string>, i: int, grid: array2<GridCell>, y: int, nextGoblinId: int, nextElfId: int,
                 ghost rows: seq<string>)
    returns (ok: bool, y': int, nextGoblinId': int, nextElfId': int, ghost rows': seq<string>)
    requires 0 <= i < |lines| && grid.Length0 == |lines| && grid.Length1 == |lines[0]|
    requires Progress(lines, i, rows, nextGoblinId, nextElfId) && y == |rows|
    requires Placed(grid, ParsedRows(NonBlank(lines)), y)
    modifies grid
    ensures ok ==> Progress(lines, i + 1, rows', nextGoblinId', nextElfId') && y' == |rows'|
    ensures ok ==> Placed(grid, ParsedRows(NonBlank(lines)), y')
    ensures !ok ==> !WellShaped(NonBlank(lines), |lines[0]|)
  {
    var line := lines[i];
    ok, y', nextGoblinId', nextElfId', rows' := true, y, nextGoblinId, nextElfId, rows;
    if Blank(line) {
      ProgressBlank(lines, i, rows, nextGoblinId, nextElfId);
    } else if |line| != grid.Length1 {
      BadLine(lines, i);
      ok := false;
    } else {
      var cells;
      ok, cells, nextGoblinId', nextElfId' := ParseLine(line, nextGoblinId, nextElfId);
      if !ok {
        BadLine(lines, i);
      } else {
        ProgressRow(lines, i, rows, nextGoblinId, nextElfId);
        PlaceRow(grid, ParsedRows(NonBlank(lines)), y, cells);
        y', rows' := y + 1, rows + [line];
      }
    }
  }

  /// The state of the row loop after `i` lines: `rows` are the non-blank
  /// lines met so far, all well shaped, and the next ids count their units.
  ghost predicate Progress(lines: seq<string>, i: int, rows: seq<string>, goblins: int, elves: int)
    requires 0 < |lines| && 0 <= i <= |lines|
  {
    rows == NonBlank(lines[..i]) && WellShaped(rows, |lines[0]|) &&
    goblins == RowsCount(rows, 'G') && elves == RowsCount(rows, 'E')
  }

  /// A blank line leaves the loop state as it is.
  lemma ProgressBlank(lines: seq<string>, i: int, rows: seq<string>, goblins: int, elves: int)
    requires 0 <= i < |lines| && Blank(lines[i]) && Progress(lines, i, rows, goblins, elves)
    ensures Progress(lines, i + 1, rows, goblins, elves)
  {
    NonBlankNext(lines, i);
  }

  /// A good non-blank line becomes the next row, whose cells are the next
  /// row of the whole parse.
  lemma ProgressRow(lines: seq<string>, i: int, rows: seq<string>, goblins: int, elves: int)
    requires 0 <= i < |lines| && !Blank(lines[i]) && |lines[i]| == |lines[0]| && MapLine(lines[i])
    requires Progress(lines, i, rows, goblins, elves)
    ensures Progress(lines, i + 1, rows + [lines[i]], goblins + CharCount(lines[i], 'G'), elves + CharCount(lines[i], 'E'))
    ensures var target := ParsedRows(NonBlank(lines));
      |rows| < |target| && target[|rows|] == LineCells(lines[i], goblins, elves) &&
      |target[|rows|]| == |lines[0]|
  {
    NonBlankNext(lines, i);
    NextRow(lines, i);
    WellShapedNext(rows, lines[i], |lines[0]|);
    RowsCountNext(rows, lines[i]);
  }

  /// After the last line the rows are all the non-blank lines.
  lemma ProgressAll(lines: seq<string>, rows: seq<string>, goblins: int, elves: int)
    requires 0 < |lines| && Progress(lines, |lines|, rows, goblins, elves)
    ensures rows == NonBlank(lines) && WellShaped(NonBlank(lines), |lines[0]|)
  {
    assert lines[..|lines|] == lines;
  }

  /// Counting one more row.
  lemma RowsCountNext(rows: seq<string>, line: string)
    ensures RowsCount(rows + [line], 'G') == RowsCount(rows, 'G') + CharCount(line, 'G')
    ensures RowsCount(rows + [line], 'E') == RowsCount(rows, 'E') + CharCount(line, 'E')
  {
    assert (rows + [line])[..|rows|] == rows;
  }

  /// The non-blank lines among the first `i` lines are a prefix of all the
  /// non-blank lines.
  lemma {:induction false} NonBlankPrefix(lines: seq<string>, i: int)
    requires 0 <= i <= |lines|
    ensures var r := NonBlank(lines[..i]);
      |r| <= |NonBlank(lines)| && r == NonBlank(lines)[..|r|]
    decreases |lines| - i
  {
    if i < |lines| {
      NonBlankPrefix(lines, i + 1);
      NonBlankNext(lines, i);
    } else {
      assert lines[..i] == lines;
    }
  }

  /// A non-blank line `i` is parsed as row `y`, the number of non-blank
  /// lines before it, numbering on from the units in those lines.
  lemma NextRow(lines: seq<string>, i: int)
    requires 0 <= i < |lines| && !Blank(lines[i])
    ensures var rows, all := NonBlank(lines[..i]), NonBlank(lines);
      |rows| < |all| && ParsedRows(all)[|rows|] == LineCells(lines[i], RowsCount(rows, 'G'), RowsCount(rows, 'E'))
  {
    var rows, all := NonBlank(lines[..i]), NonBlank(lines);
    NonBlankNext(lines, i);
    NonBlankPrefix(lines, i + 1);
    var y := |rows|;
    assert all[..y + 1] == rows + [lines[i]];
    assert all[..y] == (rows + [lines[i]])[..y] == rows;
    ParsedRow(all, y);
  }

  /// A non-blank line of the wrong width or with a foreign character makes
  /// the parse fail.
  lemma BadLine(lines: seq<string>, i: int)
    requires 0 <= i < |lines| && !Blank(lines[i]) && (|lines[i]| != |lines[0]| || !MapLine(lines[i]))
    ensures !WellShaped(NonBlank(lines), |lines[0]|)
  {
    NonBlankMembers(lines);
    assert lines[i] in NonBlank(lines);
  }

  lemma WellShapedNext(rows: seq<string>, line: string, width: int)
    requires WellShaped(rows, width) && |line| == width && MapLine(line)
    ensures WellShaped(rows + [line], width)
  {
  }

  /// The first `y` rows of `grid` hold the first `y` rows of `target` and
  /// the rest are still empty.
  ghost predicate Placed(grid: array2<GridCell>, target: seq<seq<GridCell>>, y: int)
    reads grid
  {
    0 <= y <= |target| && y <= grid.Length0 &&
    forall yy, xx :: 0 <= yy < grid.Length0 && 0 <= xx < grid.Length1 ==> grid[yy, xx] == Expected(target, y, yy, xx)
  }

  /// What `Placed` expects at `(xx, yy)`: the target's cell in a written
  /// row, and an empty cell elsewhere.
  ghost function Expected(target: seq<seq<GridCell>>, y: int, yy: int, xx: int): GridCell
  {
    if 0 <= yy < y && yy < |target| && 0 <= xx < |target[yy]| then target[yy][xx] else Empty()
  }

  /// Writes the next row of `target` into `grid`.
  method PlaceRow(grid: array2<GridCell>, ghost target: seq<seq<GridCell>>, y: int, cells: seq<GridCell>)
    requires Placed(grid, target, y) && y < grid.Length0 && y < |target|
    requires cells == target[y] && |cells| == grid.Length1
    modifies grid
    ensures Placed(grid, target, y + 1)
  {
    CopyRow(grid, y, cells);
  }

  /// At the end of a successful parse the array holds the padded rows.
  lemma ParsedGrid(rows: seq<string>, grid: array2<GridCell>)
    requires |rows| <= grid.Length0 && WellShaped(rows, grid.Length1)
    requires Placed(grid, ParsedRows(rows), |rows|)
    ensures Snapshot(grid) == Padded(rows, grid.Length0, grid.Length1)
  {
    var g, h := Snapshot(grid), Padded(rows, grid.Length0, grid.Length1);
    forall p | InGrid(g, p)
      ensures At(g, p) == At(h, p)
    {
      PaddedAt(rows, grid.Length0, grid.Length1, p);
    }
    GridEquality(g, h);
  }

  /// A cell of the padded rows.
  lemma PaddedAt(rows: seq<string>, height: int, width: int, p: Pos)
    requires |rows| <= height && 0 <= width && WellShaped(rows, width)
    requires 0 <= p.y < height && 0 <= p.x < width
    ensures var h := Padded(rows, height, width);
      h[p.y][p.x] == if p.y < |rows| then ParsedRows(rows)[p.y][p.x] else Empty()
  {
  }

  /// The inner loop of `ParseGrid`: the cells of `line`, numbering units on
  /// from `goblins` and `elves`; `ok` is false at the first character
  /// outside the map alphabet.
  method ParseLine(line: string, goblins: int, elves: int)
    returns (ok: bool, cells: seq<GridCell>, nextGoblinId: int, nextElfId: int)
    ensures ok <==> MapLine(line)
    ensures ok ==>
      cells == LineCells(line, goblins, elves) &&
      nextGoblinId == goblins + CharCount(line, 'G') && nextElfId == elves + CharCount(line, 'E')
  {
    nextGoblinId, nextElfId := goblins, elves;
    cells := [];
    ok := true;
    var x := 0;
    while x < |line| && ok
      invariant 0 <= x <= |line|
      invariant ok ==> forall i :: 0 <= i < x ==> line[i] in "#.GE"
      invariant !ok ==> !MapLine(line)
      invariant ok ==> nextGoblinId == goblins + CharCount(line[..x], 'G') && nextElfId == elves + CharCount(line[..x], 'E')
      invariant ok ==> cells == LineCells(line[..x], goblins, elves)
    {
      var c := line[x];
      CharCountNext(line, x, 'G');
      CharCountNext(line, x, 'E');
      LineCellsNext(line, x, goblins, elves);
      match c {
        case '#' => cells := cells + [Wall()];
        case '.' => cells := cells + [Empty()];
        case 'G' => cells := cells + [Goblin(nextGoblinId)]; nextGoblinId := nextGoblinId + 1;
        case 'E' => cells := cells + [Elf(nextElfId)]; nextElfId := nextElfId + 1;
        case _ => ok := false;
      }
      x := x + 1;
    }
    if ok {
      assert line[..|line|] == line;
    }
  }

  /// The cells of a one-longer prefix of a line.
  lemma LineCellsNext(line: string, x: int, goblins: int, elves: int)
    requires 0 <= x < |line|
    ensures LineCells(line[..x + 1], goblins, elves) ==
      LineCells(line[..x], goblins, elves) +
      [CellFor(line[x], goblins + CharCount(line[..x], 'G'), elves + CharCount(line[..x], 'E'))]
  {
    assert line[..x + 1][..x] == line[..x];
  }
}

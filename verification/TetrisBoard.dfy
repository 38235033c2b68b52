/** The Tetris well as rows of cells: which rows survive a purge, and how many cells are set. */
module TetrisBoard {
  import opened Arithmetic

  const GRID_WIDTH: nat := 16
  const GRID_HEIGHT: nat := 20

  datatype Cell = Cell(isSet: bool, color: nat)

  type Row = seq<Cell>

  predicate Full(row: Row) {
    forall c :: c in row ==> c.isSet
  }

  predicate Clear(row: Row) {
    forall c :: c in row ==> !c.isSet
  }

  /** The rows a purge keeps, top to bottom. */
  function Kept(rows: seq<Row>): (k: seq<Row>)
    ensures |k| <= |rows| && forall r :: r in k ==> r in rows && !Full(r)
  {
    if rows == [] then [] else (if Full(rows[0]) then [] else [rows[0]]) + Kept(rows[1..])
  }

  function FullRows(rows: seq<Row>): nat {
    if rows == [] then 0 else (if Full(rows[0]) then 1 else 0) + FullRows(rows[1..])
  }

  /** Kept rows sink to the bottom in order; the rows above them are clear. */
  ghost predicate Compacted(before: seq<Row>, after: seq<Row>) {
    var pad := |before| - |Kept(before)|;
    && |after| == |before|
    && after[pad..] == Kept(before)
    && (forall y :: 0 <= y < pad ==> Clear(after[y]))
  }

  /** Every byte of the grid is zero. */
  predicate Blank(rows: seq<Row>) {
    forall y, x :: 0 <= y < |rows| && 0 <= x < |rows[y]| ==> rows[y][x] == Cell(false, 0)
  }

  /** A row with every cell unset; its colours stay. */
  function Cleared(row: Row): (c: Row)
    ensures |c| == |row| && Clear(c)
  {
    seq(|row|, x requires 0 <= x < |row| => row[x].(isSet := false))
  }

  /** What purge_grid leaves: the kept rows at the bottom, and above them the old rows cleared. */
  function Purged(rows: seq<Row>): (after: seq<Row>)
    ensures |after| == |rows|
  {
    var pad := |rows| - |Kept(rows)|;
    seq(pad, y requires 0 <= y < pad => Cleared(rows[y])) + Kept(rows)
  }

  /** That is compaction: no row that is not full is lost, added or moved past another. */
  lemma PurgedIsCompacted(rows: seq<Row>)
    ensures Compacted(rows, Purged(rows))
  {
  }

  /** The rows cleared on top keep the colours they had. */
  lemma ClearedKeepColours(rows: seq<Row>, y: nat, x: nat)
    requires y < |rows| - |Kept(rows)| && x < |rows[y]|
    ensures |Purged(rows)[y]| == |rows[y]| && Purged(rows)[y][x] == Cell(false, rows[y][x].color)
  {
  }

  lemma {:induction false} KeptOrFull(rows: seq<Row>)
    ensures |Kept(rows)| + FullRows(rows) == |rows|
  {
    if rows != [] {
      KeptOrFull(rows[1..]);
    }
  }

  lemma {:induction false} NothingFull(rows: seq<Row>)
    requires FullRows(rows) == 0
    ensures Kept(rows) == rows && Purged(rows) == rows
  {
    if rows != [] {
      NothingFull(rows[1..]);
      assert rows == [rows[0]] + rows[1..];
    }
  }

  function SetInRow(row: Row): nat {
    if row == [] then 0 else (if row[0].isSet then 1 else 0) + SetInRow(row[1..])
  }

  function SetCells(rows: seq<Row>): nat {
    if rows == [] then 0 else SetInRow(rows[0]) + SetCells(rows[1..])
  }

  lemma {:induction false} FullRowCount(row: Row)
    ensures Full(row) ==> SetInRow(row) == |row|
    ensures Clear(row) ==> SetInRow(row) == 0
  {
    if row != [] {
      FullRowCount(row[1..]);
    }
  }

  lemma {:induction false} KeptCount(rows: seq<Row>)
    requires forall r :: r in rows ==> |r| == GRID_WIDTH
    ensures SetCells(rows) == SetCells(Kept(rows)) + GRID_WIDTH * FullRows(rows)
  {
    if rows != [] {
      KeptCount(rows[1..]);
      FullRowCount(rows[0]);
      if Full(rows[0]) {
        assert Kept(rows) == Kept(rows[1..]);
      } else {
        assert Kept(rows)[1..] == Kept(rows[1..]);
      }
    }
  }

  lemma {:induction false} ClearPrefixCount(rows: seq<Row>, pad: nat)
    requires pad <= |rows| && forall y :: 0 <= y < pad ==> Clear(rows[y])
    ensures SetCells(rows) == SetCells(rows[pad..])
  {
    if pad > 0 {
      FullRowCount(rows[0]);
      ClearPrefixCount(rows[1..], pad - 1);
      assert rows[1..][pad - 1..] == rows[pad..];
    }
  }

  /** A purge removes exactly the cells of the full rows. */
  lemma PurgeCount(rows: seq<Row>)
    requires forall r :: r in rows ==> |r| == GRID_WIDTH
    ensures SetCells(Purged(rows)) + GRID_WIDTH * FullRows(rows) == SetCells(rows)
  {
    KeptOrFull(rows);
    KeptCount(rows);
    PurgedIsCompacted(rows);
    ClearPrefixCount(Purged(rows), |rows| - |Kept(rows)|);
  }

  /** Setting a cell adds one, unless it was set. */
  lemma {:induction false} SetOneInRow(row: Row, x: nat, c: Cell)
    requires x < |row| && c.isSet
    ensures SetInRow(row[x := c]) == SetInRow(row) + if row[x].isSet then 0 else 1
  {
    if x > 0 {
      SetOneInRow(row[1..], x - 1, c);
      assert row[x := c][1..] == row[1..][x - 1 := c];
    } else {
      assert row[x := c][1..] == row[1..];
    }
  }

  lemma {:induction false} SetOne(rows: seq<Row>, y: nat, x: nat, c: Cell)
    requires y < |rows| && x < |rows[y]| && c.isSet
    ensures SetCells(rows[y := rows[y][x := c]]) == SetCells(rows) + if rows[y][x].isSet then 0 else 1
  {
    var changed := rows[y := rows[y][x := c]];
    if y > 0 {
      SetOne(rows[1..], y - 1, x, c);
      assert changed[1..] == rows[1..][y - 1 := rows[y][x := c]];
    } else {
      SetOneInRow(rows[0], x, c);
      assert changed[1..] == rows[1..];
    }
  }

  lemma {:induction false} ClearBoardCount(rows: seq<Row>)
    requires forall y :: 0 <= y < |rows| ==> Clear(rows[y])
    ensures SetCells(rows) == 0
  {
    if rows != [] {
      FullRowCount(rows[0]);
      ClearBoardCount(rows[1..]);
    }
  }

  // Shapes: (y, x) offsets of their points, by group, in rotation order.

  datatype Point = P(y: nat, x: nat)

  type Shape = seq<Point>

  function Group(g: nat): seq<Shape>
    requires g < 4
  {
    match g
    case 0 => [[P(0, 0), P(0, 1), P(1, 1), P(1, 2)], [P(0, 1), P(1, 1), P(1, 0), P(2, 0)]]
    case 1 => [[P(0, 0), P(1, 0), P(2, 0), P(3, 0)], [P(0, 0), P(0, 1), P(0, 2), P(0, 3)]]
    case 2 => [[P(0, 1), P(1, 0), P(1, 1), P(1, 2)], [P(0, 0), P(1, 0), P(1, 1), P(2, 0)],
               [P(0, 0), P(0, 1), P(0, 2), P(1, 1)], [P(0, 1), P(1, 0), P(1, 1), P(2, 1)]]
    case 3 => [[P(0, 0), P(0, 1), P(1, 0), P(1, 1)]]
  }

  /** Four distinct points within a 4 by 4 box. */
  ghost predicate GoodShape(s: Shape) {
    && |s| == 4
    && (forall i :: 0 <= i < 4 ==> s[i].x < 4 && s[i].y < 4)
    && (forall i, j :: 0 <= i < j < 4 ==> s[i] != s[j])
  }

  lemma FourPoints(a: Point, b: Point, c: Point, d: Point)
    requires a.x < 4 && a.y < 4 && b.x < 4 && b.y < 4 && c.x < 4 && c.y < 4 && d.x < 4 && d.y < 4
    requires a != b && a != c && a != d && b != c && b != d && c != d
    ensures GoodShape([a, b, c, d])
  {
    var s := [a, b, c, d];
    assert s[0] == a && s[1] == b && s[2] == c && s[3] == d;
  }

  lemma ShapesGood(g: nat, i: nat)
    requires g < 4 && i < |Group(g)|
    ensures GoodShape(Group(g)[i])
  {
    var s := Group(g)[i];
    FourPoints(s[0], s[1], s[2], s[3]);
    assert s == [s[0], s[1], s[2], s[3]];
  }

  /** Shapes of four distinct points. */
  ghost predicate GoodGroup(shapes: seq<Shape>) {
    forall i :: 0 <= i < |shapes| ==> GoodShape(shapes[i])
  }

  lemma GroupsGood(g: nat)
    requires g < 4
    ensures GoodGroup(Group(g))
  {
    forall i | 0 <= i < |Group(g)| ensures GoodShape(Group(g)[i]) {
      ShapesGood(g, i);
    }
  }

  type ShapeGroup = shapes: seq<Shape> | GoodGroup(shapes) ghost witness []

  /** A block: its group of shapes in rotation order, which of them it has now, and where it is. */
  datatype Block = Block(group: ShapeGroup, place: nat, shape: Shape, x: int, y: int, color: nat) {
    function Column(i: nat): int
      requires i < |shape|
    {
      x + shape[i].x
    }

    function Line(i: nat): int
      requires i < |shape|
    {
      y + shape[i].y
    }
  }

  predicate GoodBlock(b: Block) {
    b.place < |b.group| && b.shape == b.group[b.place]
  }

  lemma GoodBlockShape(b: Block)
    requires GoodBlock(b)
    ensures GoodShape(b.shape)
  {
  }

  predicate PointInside(b: Block, i: nat)
    requires i < |b.shape|
  {
    0 <= b.Column(i) < GRID_WIDTH && 0 <= b.Line(i) < GRID_HEIGHT
  }

  predicate Inside(b: Block) {
    forall i :: 0 <= i < |b.shape| ==> PointInside(b, i)
  }

  /** A point of a block is outside the well or on a set cell. */
  predicate PointClashes(rows: seq<Row>, b: Block, i: nat)
    requires WellShaped(rows) && i < |b.shape|
  {
    !PointInside(b, i) || (assert rows[b.Line(i)] in rows; rows[b.Line(i)][b.Column(i)].isSet)
  }

  predicate Clashes(rows: seq<Row>, b: Block)
    requires WellShaped(rows)
  {
    exists i :: 0 <= i < |b.shape| && PointClashes(rows, b, i)
  }

  /** The place is in the 16 columns and 20 lines of the well, and its cell unset. */
  predicate FreePlace(rows: seq<Row>, y: int, x: int)
    requires WellShaped(rows)
  {
    0 <= x <= 15 && 0 <= y <= 19 && (assert rows[y] in rows; !rows[y][x].isSet)
  }

  /** A block clashes exactly unless all its points are in the 16 columns and 20 lines of the well, on unset cells. */
  lemma FreeIff(rows: seq<Row>, b: Block)
    requires WellShaped(rows)
    ensures !Clashes(rows, b) <==>
            forall i :: 0 <= i < |b.shape| ==> FreePlace(rows, b.y + b.shape[i].y, b.x + b.shape[i].x)
  {
    forall i | 0 <= i < |b.shape|
      ensures PointClashes(rows, b, i) <==> !FreePlace(rows, b.y + b.shape[i].y, b.x + b.shape[i].x)
    {
    }
  }

  /** Rows of the well's height and width. */
  predicate WellShaped(rows: seq<Row>) {
    |rows| == GRID_HEIGHT && forall r :: r in rows ==> |r| == GRID_WIDTH
  }

  /** The well with one cell set. */
  function SetAt(rows: seq<Row>, y: nat, x: nat, color: nat): (r: seq<Row>)
    requires WellShaped(rows) && y < GRID_HEIGHT && x < GRID_WIDTH
    ensures WellShaped(r)
  {
    assert rows[y] in rows;
    rows[y := rows[y][x := Cell(true, color)]]
  }

  /** The well with the first n points of a block frozen into it. */
  function Stamp(rows: seq<Row>, b: Block, n: nat): (r: seq<Row>)
    requires WellShaped(rows) && Inside(b) && n <= |b.shape|
    ensures WellShaped(r)
  {
    if n == 0 then rows
    else
      assert PointInside(b, n - 1);
      SetAt(Stamp(rows, b, n - 1), b.Line(n - 1), b.Column(n - 1), b.color)
  }

  ghost predicate Hits(b: Block, n: nat, y: int, x: int)
    requires n <= |b.shape|
  {
    exists i :: 0 <= i < n && b.Line(i) == y && b.Column(i) == x
  }

  function CellAt(rows: seq<Row>, y: nat, x: nat): Cell
    requires WellShaped(rows) && y < GRID_HEIGHT && x < GRID_WIDTH
  {
    assert rows[y] in rows;
    rows[y][x]
  }

  lemma SetAtCell(rows: seq<Row>, y: nat, x: nat, color: nat, y': nat, x': nat)
    requires WellShaped(rows) && y < GRID_HEIGHT && x < GRID_WIDTH && y' < GRID_HEIGHT && x' < GRID_WIDTH
    ensures CellAt(SetAt(rows, y, x, color), y', x') == if y == y' && x == x' then Cell(true, color) else CellAt(rows, y', x')
  {
    assert rows[y] in rows;
  }

  /** Freezing sets exactly the block's cells, in its colour. */
  lemma {:induction false} StampCell(rows: seq<Row>, b: Block, n: nat, y: nat, x: nat)
    requires WellShaped(rows) && Inside(b) && n <= |b.shape| && y < GRID_HEIGHT && x < GRID_WIDTH
    ensures CellAt(Stamp(rows, b, n), y, x) == if Hits(b, n, y, x) then Cell(true, b.color) else CellAt(rows, y, x)
  {
    if n > 0 {
      assert PointInside(b, n - 1);
      StampCell(rows, b, n - 1, y, x);
      SetAtCell(Stamp(rows, b, n - 1), b.Line(n - 1), b.Column(n - 1), b.color, y, x);
      HitsNext(b, n, y, x);
    }
  }

  lemma HitsNext(b: Block, n: nat, y: int, x: int)
    requires 0 < n <= |b.shape|
    ensures Hits(b, n, y, x) <==> Hits(b, n - 1, y, x) || (b.Line(n - 1) == y && b.Column(n - 1) == x)
  {
  }

  lemma PointsDiffer(b: Block, n: nat)
    requires GoodShape(b.shape) && n < 4
    ensures !Hits(b, n, b.Line(n), b.Column(n))
  {
    forall i | 0 <= i < n ensures b.Line(i) != b.Line(n) || b.Column(i) != b.Column(n) {
      assert b.shape[i] != b.shape[n];
    }
  }

  /** How many of the first n points of a block are on set cells. */
  function Overlap(rows: seq<Row>, b: Block, n: nat): nat
    requires WellShaped(rows) && n <= |b.shape|
  {
    if n == 0 then 0 else Overlap(rows, b, n - 1) + if PointClashes(rows, b, n - 1) then 1 else 0
  }

  /** Freezing one more point adds a cell, unless the point is on a set one. */
  lemma StampStep(rows: seq<Row>, b: Block, n: nat)
    requires WellShaped(rows) && Inside(b) && GoodShape(b.shape) && n < 4
    ensures SetCells(Stamp(rows, b, n + 1)) == SetCells(Stamp(rows, b, n)) + if PointClashes(rows, b, n) then 0 else 1
  {
    assert PointInside(b, n);
    var y: nat, x: nat := b.Line(n), b.Column(n);
    var before := Stamp(rows, b, n);
    StampCell(rows, b, n, y, x);
    PointsDiffer(b, n);
    assert before[y] in before;
    SetOne(before, y, x, Cell(true, b.color));
  }

  /** Freezing a block adds one cell per point that is not on a set cell. */
  lemma {:induction false} StampCount(rows: seq<Row>, b: Block, n: nat)
    requires WellShaped(rows) && Inside(b) && GoodShape(b.shape) && n <= 4
    ensures SetCells(Stamp(rows, b, n)) + Overlap(rows, b, n) == SetCells(rows) + n
  {
    if n > 0 {
      StampCount(rows, b, n - 1);
      StampStep(rows, b, n - 1);
    }
  }

  /** A block inside the well overlaps set cells exactly when it clashes. */
  lemma {:induction false} OverlapIffClashing(rows: seq<Row>, b: Block, n: nat)
    requires WellShaped(rows) && n <= |b.shape|
    ensures Overlap(rows, b, n) > 0 <==> exists i :: 0 <= i < n && PointClashes(rows, b, i)
  {
    if n > 0 {
      OverlapIffClashing(rows, b, n - 1);
    }
  }

  // Rotation, seen as geometry.

  /** A point turned clockwise in a shape of the given height: the top line becomes the rightmost column. */
  function QuarterTurn(p: Point, height: nat): Point
    requires p.y < height
  {
    P(p.x, height - 1 - p.y)
  }

  /** The points of `t` are those of `s`, a shape of the given height, after a quarter turn. */
  ghost predicate TurnedFrom(s: Shape, t: Shape, height: nat) {
    && |s| == |t|
    && (exists i :: 0 <= i < |s| && s[i].y == height - 1)
    && (forall i :: 0 <= i < |s| ==> s[i].y < height && QuarterTurn(s[i], height) in t)
  }

  ghost predicate IsQuarterTurn(s: Shape, t: Shape) {
    exists height :: TurnedFrom(s, t, height)
  }

  /** Every next shape in a group is the one before it turned by a quarter. */
  lemma NextShapeIsTurned(g: nat, i: nat)
    requires g < 4 && i < |Group(g)|
    ensures IsQuarterTurn(Group(g)[i], Group(g)[if i + 1 == |Group(g)| then 0 else i + 1])
  {
    var s, t := Group(g)[i], Group(g)[if i + 1 == |Group(g)| then 0 else i + 1];
    match g {
      case 0 => if i == 0 { FourTurned(s, t, 2, 3, 0, 1, 2, 3); } else { FourTurned(s, t, 3, 3, 3, 2, 1, 0); }
      case 1 => if i == 0 { FourTurned(s, t, 4, 3, 3, 2, 1, 0); } else { FourTurned(s, t, 1, 0, 0, 1, 2, 3); }
      case 2 =>
        match i {
          case 0 => FourTurned(s, t, 2, 1, 2, 0, 1, 3);
          case 1 => FourTurned(s, t, 3, 3, 2, 1, 3, 0);
          case 2 => FourTurned(s, t, 2, 3, 0, 2, 3, 1);
          case 3 => FourTurned(s, t, 3, 3, 3, 0, 2, 1);
        }
      case 3 => FourTurned(s, t, 2, 3, 1, 3, 0, 2);
    }
  }

  /** Four points, the one at `low` on the last line, and where in `t` each of them goes. */
  lemma FourTurned(s: Shape, t: Shape, height: nat, low: nat, a: nat, b: nat, c: nat, d: nat)
    requires |s| == 4 && |t| == 4 && low < 4 && s[low].y == height - 1 && a < 4 && b < 4 && c < 4 && d < 4
    requires forall i :: 0 <= i < 4 ==> s[i].y < height
    requires QuarterTurn(s[0], height) == t[a] && QuarterTurn(s[1], height) == t[b]
    requires QuarterTurn(s[2], height) == t[c] && QuarterTurn(s[3], height) == t[d]
    ensures TurnedFrom(s, t, height)
  {
  }

  /** rotate_block: the next shape, around the end of the group. */
  function Rotated(b: Block): Block
    requires GoodBlock(b)
  {
    var next := (b.place + 1) % |b.group|;
    b.(place := next, shape := b.group[next])
  }

  /** rotate_block turns a block by a quarter, where it is. */
  lemma RotatedIsTurned(b: Block, g: nat)
    requires GoodBlock(b) && g < 4 && b.group == Group(g)
    ensures IsQuarterTurn(b.shape, Rotated(b).shape) && Rotated(b).x == b.x && Rotated(b).y == b.y
  {
    Wrap(b.place + 1, |b.group|);
    NextShapeIsTurned(g, b.place);
  }

  function Turned(b: Block, times: nat): (r: Block)
    requires GoodBlock(b)
    ensures GoodBlock(r) && r.group == b.group
  {
    if times == 0 then b else Rotated(Turned(b, times - 1))
  }

  lemma NextIndex(n: nat, i: nat, j: nat, times: nat)
    requires i < n && 0 < times <= n && j == (i + (times - 1)) % n
    ensures 0 <= j < n && (j + 1) % n == (i + times) % n
  {
    Wrap(i + (times - 1), n);
    Wrap(i + times, n);
    Wrap(j + 1, n);
  }

  lemma {:induction false} TurnedPlace(b: Block, times: nat, place: nat)
    requires GoodBlock(b) && times <= |b.group| && place == (b.place + times) % |b.group|
    ensures place < |b.group| && Turned(b, times) == b.(place := place, shape := b.group[place])
  {
    if times == 0 {
      Wrap(b.place, |b.group|);
    } else {
      var previous := (b.place + (times - 1)) % |b.group|;
      TurnedPlace(b, times - 1, previous);
      NextIndex(|b.group|, b.place, previous, times);
    }
  }

  /** As many rotations as the group has shapes turn a block back into itself. */
  lemma FullTurn(b: Block)
    requires GoodBlock(b)
    ensures Turned(b, |b.group|) == b
  {
    Wrap(b.place + |b.group|, |b.group|);
    TurnedPlace(b, |b.group|, b.place);
  }

  /** The block new_block makes, given the three random picks. */
  function NewBlock(group: nat, index: nat, color: nat): Block
    requires group < 4 && index < |Group(group)|
  {
    GroupsGood(group);
    Block(Group(group), index, Group(group)[index], GRID_WIDTH / 2, 0, color)
  }

  lemma NewBlockFits(group: nat, index: nat, color: nat)
    requires group < 4 && index < |Group(group)|
    ensures GoodBlock(NewBlock(group, index, color)) && Inside(NewBlock(group, index, color))
    ensures forall i :: 0 <= i < 4 ==> 8 <= NewBlock(group, index, color).Column(i) < 12 && 0 <= NewBlock(group, index, color).Line(i) < 4
  {
    GroupsGood(group);
    ShapesGood(group, index);
  }

  lemma InsideIfNotClashing(rows: seq<Row>, b: Block)
    requires WellShaped(rows) && !Clashes(rows, b)
    ensures Inside(b)
  {
    forall i | 0 <= i < |b.shape| ensures PointInside(b, i) {
      assert !PointClashes(rows, b, i);
    }
  }

  /** A clear well clashes with nothing that is inside it. */
  lemma ClearWellFree(rows: seq<Row>, b: Block)
    requires WellShaped(rows) && Inside(b) && forall y :: 0 <= y < |rows| ==> Clear(rows[y])
    ensures !Clashes(rows, b)
  {
    forall i | 0 <= i < |b.shape| ensures !PointClashes(rows, b, i) {
      assert PointInside(b, i);
      assert Clear(rows[b.Line(i)]);
    }
  }
}

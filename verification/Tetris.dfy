/** The Tetris engine of guest/tetris.c, on its grid, its block and its flags. */
module Tetris {
  import opened TetrisBoard

  /**
  Row indices `left`, collected from the bottom up, name the kept rows of rows[from..]:
  the k-th index is the k-th kept row counted from the bottom.
  */
  ghost predicate Listed(rows: seq<Row>, from: nat, left: seq<nat>)
    requires from <= |rows|
  {
    && |left| == |Kept(rows[from..])|
    && (forall k :: 0 <= k < |left| ==> from <= left[k] < |rows| && left[k] + k < |rows|
                                        && rows[left[k]] == Kept(rows[from..])[|left| - 1 - k])
    && (forall k, l :: 0 <= k < l < |left| ==> left[l] < left[k])
  }

  lemma NextRow(rows: seq<Row>, from: nat)
    requires 0 < from <= |rows|
    ensures Kept(rows[from - 1..]) == (if Full(rows[from - 1]) then [] else [rows[from - 1]]) + Kept(rows[from..])
    ensures FullRows(rows[from - 1..]) == FullRows(rows[from..]) + if Full(rows[from - 1]) then 1 else 0
  {
    var tail := rows[from - 1..];
    assert tail[0] == rows[from - 1] && tail[1..] == rows[from..];
  }

  lemma ListKept(rows: seq<Row>, from: nat, left: seq<nat>)
    requires 0 < from <= |rows| && Listed(rows, from, left) && !Full(rows[from - 1])
    ensures Listed(rows, from - 1, left + [from - 1])
  {
    ListedLength(rows, from, left);
    var kept, tail, longer := Kept(rows[from - 1..]), Kept(rows[from..]), left + [from - 1];
    assert kept == [rows[from - 1]] + tail by { NextRow(rows, from); }
    forall k | 0 <= k < |longer|
      ensures from - 1 <= longer[k] < |rows| && longer[k] + k < |rows| && rows[longer[k]] == kept[|longer| - 1 - k]
    {
      if k < |left| {
        assert longer[k] == left[k] && kept[|longer| - 1 - k] == tail[|left| - 1 - k];
      }
    }
    forall k, l | 0 <= k < l < |longer| ensures longer[l] < longer[k] {
      assert longer[k] == left[k];
    }
  }

  lemma ListRow(rows: seq<Row>, from: nat, left: seq<nat>)
    requires 0 < from <= |rows| && Listed(rows, from, left)
    ensures Listed(rows, from - 1, if Full(rows[from - 1]) then left else left + [from - 1])
    ensures FullRows(rows[from - 1..]) == FullRows(rows[from..]) + if Full(rows[from - 1]) then 1 else 0
  {
    NextRow(rows, from);
    if !Full(rows[from - 1]) {
      ListKept(rows, from, left);
    }
  }

  lemma ListedLength(rows: seq<Row>, from: nat, left: seq<nat>)
    requires from <= |rows| && Listed(rows, from, left)
    ensures from + |left| <= |rows|
  {
  }

  /** Copying kept rows from the bottom up never overwrites a row before it is read. */
  ghost predicate Sinking(rows: seq<Row>, now: seq<Row>, left: seq<nat>, k: nat)
    requires Listed(rows, 0, left) && k <= |left|
  {
    && |now| == |rows|
    && (forall i :: 0 <= i < k ==> now[|rows| - 1 - i] == rows[left[i]])
    && (forall y :: 0 <= y < |rows| - k ==> now[y] == rows[y])
  }

  lemma SinkRow(rows: seq<Row>, now: seq<Row>, left: seq<nat>, k: nat)
    requires Listed(rows, 0, left) && k < |left| && Sinking(rows, now, left, k)
    ensures var target := |rows| - 1 - k;
            0 <= left[k] <= target < |now| && Sinking(rows, now[target := now[left[k]]], left, k + 1)
  {
  }

  /** All kept rows copied and the rows above cleared: the well is purged. */
  lemma SunkIsPurged(rows: seq<Row>, sunk: seq<Row>, after: seq<Row>, left: seq<nat>)
    requires Listed(rows, 0, left) && Sinking(rows, sunk, left, |left|) && |after| == |rows|
    requires forall y :: |rows| - |left| <= y < |rows| ==> after[y] == sunk[y]
    requires forall y :: 0 <= y < |rows| - |left| ==> after[y] == Cleared(sunk[y])
    ensures after == Purged(rows)
  {
    assert rows[0..] == rows;
    var pad := |rows| - |left|;
    forall y | pad <= y < |rows| ensures after[y] == Purged(rows)[y] {
      var k := |rows| - 1 - y;
      assert sunk[|rows| - 1 - k] == rows[left[k]];
    }
  }

  /** The well after a block has landed: frozen, then purged. */
  function Settled(rows: seq<Row>, b: Block): seq<Row>
    requires WellShaped(rows) && Inside(b)
  {
    Purged(Stamp(rows, b, |b.shape|))
  }

  /** The rows a landing completes. */
  function Completed(rows: seq<Row>, b: Block): nat
    requires WellShaped(rows) && Inside(b)
  {
    FullRows(Stamp(rows, b, |b.shape|))
  }

  /** The cells of a landing: four more, less those on set cells and those of the purged rows. */
  lemma LandingBooks(before: seq<Row>, b: Block)
    requires WellShaped(before) && GoodBlock(b) && Inside(b)
    ensures SetCells(Settled(before, b)) + GRID_WIDTH * Completed(before, b) + Overlap(before, b, |b.shape|)
            == SetCells(before) + 4
    ensures Overlap(before, b, |b.shape|) > 0 <==> Clashes(before, b)
  {
    GoodBlockShape(b);
    PurgeCount(Stamp(before, b, |b.shape|));
    StampCount(before, b, |b.shape|);
    OverlapIffClashing(before, b, |b.shape|);
  }

  class Game {
    const grid: array2<Cell>
    var blk: Block
    var isRunning: bool
    var started: bool
    var score: nat
    ghost var landed: nat
    ghost var purgedRows: nat
    ghost var overlapped: nat          // points landed on set cells
    ghost var stuck: bool              // the block was spawned on set cells and has not moved since
    ghost var resumed: bool            // Enter was pressed in the game-over state

    ghost predicate Shape() {
      grid.Length0 == GRID_HEIGHT && grid.Length1 == GRID_WIDTH
    }

    ghost function RowAt(y: nat): Row
      requires Shape() && y < GRID_HEIGHT
      reads grid
    {
      seq(GRID_WIDTH, x requires Shape() && 0 <= x < GRID_WIDTH reads grid => grid[y, x])
    }

    ghost function Rows(): (rows: seq<Row>)
      requires Shape()
      reads grid
      ensures WellShaped(rows)
    {
      seq(GRID_HEIGHT, y requires Shape() && 0 <= y < GRID_HEIGHT reads grid => RowAt(y))
    }

    /** The inner scan of purge_grid. */
    method RowIsFull(y: nat) returns (full: bool)
      requires Shape() && y < GRID_HEIGHT
      ensures full == Full(Rows()[y])
    {
      var x := 0;
      while x < GRID_WIDTH
        invariant x <= GRID_WIDTH && forall i :: 0 <= i < x ==> grid[y, i].isSet
      {
        if !grid[y, x].isSet {
          assert Rows()[y][x] == grid[y, x];
          return false;
        }
        x := x + 1;
      }
      return true;
    }

    method CopyRow(target: nat, source: nat)
      requires Shape() && target < GRID_HEIGHT && source < GRID_HEIGHT
      modifies grid
      ensures Rows() == old(Rows())[target := old(Rows())[source]]
    {
      var x := 0;
      while x < GRID_WIDTH
        invariant x <= GRID_WIDTH
        invariant forall i :: 0 <= i < GRID_WIDTH ==>
                    grid[target, i] == if i < x then old(grid[source, i]) else old(grid[target, i])
        invariant forall y, i :: 0 <= y < GRID_HEIGHT && 0 <= i < GRID_WIDTH && y != target ==> grid[y, i] == old(grid[y, i])
      {
        grid[target, x] := grid[source, x];
        x := x + 1;
      }
      assert RowAt(target) == old(RowAt(source));
      forall y | 0 <= y < GRID_HEIGHT && y != target ensures RowAt(y) == old(RowAt(y)) {
      }
    }

    method ClearRow(target: nat)
      requires Shape() && target < GRID_HEIGHT
      modifies grid
      ensures Rows()[target] == Cleared(old(Rows()[target]))
      ensures forall y :: 0 <= y < GRID_HEIGHT && y != target ==> Rows()[y] == old(Rows()[y])
    {
      var x := 0;
      while x < GRID_WIDTH
        invariant x <= GRID_WIDTH
        invariant forall i :: 0 <= i < GRID_WIDTH ==>
                    grid[target, i] == if i < x then old(grid[target, i]).(isSet := false) else old(grid[target, i])
        invariant forall y, i :: 0 <= y < GRID_HEIGHT && 0 <= i < GRID_WIDTH && y != target ==> grid[y, i] == old(grid[y, i])
      {
        grid[target, x] := grid[target, x].(isSet := false);
        x := x + 1;
      }
      assert RowAt(target) == Cleared(old(RowAt(target)));
      forall y | 0 <= y < GRID_HEIGHT && y != target ensures RowAt(y) == old(RowAt(y)) {
      }
    }

    /** The scanning loop of purge_grid, from the bottom row up. */
    method ScanRows() returns (left: seq<nat>, purged: nat)
      requires Shape()
      ensures Listed(Rows(), 0, left) && purged == FullRows(Rows())
    {
      left, purged := [], 0;
      var idx: nat := GRID_HEIGHT;
      while idx > 0
        invariant idx <= GRID_HEIGHT && Listed(Rows(), idx, left) && purged == FullRows(Rows()[idx..])
      {
        idx := idx - 1;
        left, purged := ScanRow(idx, left, purged);
      }
      assert Rows()[0..] == Rows();
    }

    /** One round of the scan: note the row as kept, or count it as purged. */
    method ScanRow(y: nat, left: seq<nat>, purged: nat) returns (left': seq<nat>, purged': nat)
      requires Shape() && y < GRID_HEIGHT && Listed(Rows(), y + 1, left)
      ensures Listed(Rows(), y, left')
      ensures purged' - purged == FullRows(Rows()[y..]) - FullRows(Rows()[y + 1..])
    {
      ListRow(Rows(), y + 1, left);
      var full := RowIsFull(y);
      if full {
        left', purged' := left, purged + 1;
      } else {
        left', purged' := left + [y], purged;
      }
    }

    /** purge_grid */
    method PurgeGrid() returns (purged: nat)
      requires Shape()
      modifies this`score, grid
      ensures purged == FullRows(old(Rows())) && score == old(score) + purged
      ensures Rows() == Purged(old(Rows()))
    {
      ghost var rows := Rows();
      var left;
      left, purged := ScanRows();
      if purged == 0 {
        NothingFull(rows);
        assert rows[0..] == rows;
        return;
      }
      score := score + purged;
      assert Rows() == rows;
      SinkRows(left);
      ghost var sunk := Rows();
      ClearAbove(GRID_HEIGHT - |left|);
      SunkIsPurged(rows, sunk, Rows(), left);
    }

    /** The copying loop of purge_grid. */
    method SinkRows(left: seq<nat>)
      requires Shape() && Listed(Rows(), 0, left)
      modifies grid
      ensures Sinking(old(Rows()), Rows(), left, |left|)
    {
      var k := 0;
      while k < |left|
        invariant k <= |left| && Sinking(old(Rows()), Rows(), left, k)
      {
        SinkRow(old(Rows()), Rows(), left, k);
        CopyRow(GRID_HEIGHT - 1 - k, left[k]);
        k := k + 1;
      }
    }

    /** The clearing loop of purge_grid: rows 0 up to limit. */
    method ClearAbove(limit: nat)
      requires Shape() && limit <= GRID_HEIGHT
      modifies grid
      ensures forall y :: 0 <= y < limit ==> Rows()[y] == Cleared(old(Rows()[y]))
      ensures forall y :: limit <= y < GRID_HEIGHT ==> Rows()[y] == old(Rows()[y])
    {
      var target: nat := limit;
      while target > 0
        invariant target <= limit
        invariant forall y :: 0 <= y < GRID_HEIGHT ==>
                    Rows()[y] == if target <= y < limit then Cleared(old(Rows()[y])) else old(Rows()[y])
      {
        target := target - 1;
        ClearRow(target);
      }
    }

    /**
    What every run keeps. Once started the block is inside the well, and it overlaps set cells exactly
    while it is stuck where a game over put it. The set cells are those of the landed blocks, less the
    points that landed on set cells and the cells of the purged rows. Unless Enter was pressed in the
    game-over state, a running block overlaps nothing and no point ever landed on a set cell.
    */
    ghost predicate Valid()
      reads this, grid
    {
      && Shape()
      && (if started then BlockOk() else !isRunning && !stuck && forall y :: 0 <= y < GRID_HEIGHT ==> Clear(Rows()[y]))
      && SetCells(Rows()) + GRID_WIDTH * purgedRows + overlapped == 4 * landed
      && (!resumed ==> !(isRunning && stuck) && overlapped == 0)
    }

    ghost predicate BlockOk()
      requires Shape()
      reads this, grid
    {
      GoodBlock(blk) && Inside(blk) && (stuck <==> Clashes(Rows(), blk))
    }

    /** The new block found no room and the game stopped. */
    ghost predicate GameOver()
      reads this
    {
      started && stuck && !isRunning
    }

    /** tetris_init */
    constructor ()
      ensures Valid() && !started && !resumed && landed == 0 && purgedRows == 0 && overlapped == 0 && fresh(grid)
      ensures !isRunning && score == 0 && Blank(Rows())
    {
      grid := new Cell[GRID_HEIGHT, GRID_WIDTH]((y, x) => Cell(false, 0));
      blk := Block([], 0, [], 0, 0, 0);
      isRunning, started, score := false, false, 0;
      landed, purgedRows, overlapped, stuck, resumed := 0, 0, 0, false, false;
      new;
      ClearBoardCount(Rows());
    }

    /** is_block_clashing */
    method IsBlockClashing(b: Block) returns (clash: bool)
      requires Shape()
      ensures clash == Clashes(Rows(), b)
    {
      var i := 0;
      while i < |b.shape|
        invariant i <= |b.shape|
        invariant forall k :: 0 <= k < i ==> !PointClashes(Rows(), b, k)
      {
        var x, y := b.x + b.shape[i].x, b.y + b.shape[i].y;
        if x < 0 || x >= GRID_WIDTH || y < 0 || y >= GRID_HEIGHT {
          assert PointClashes(Rows(), b, i);
          return true;
        }
        assert Rows()[y][x] == grid[y, x];
        assert PointClashes(Rows(), b, i) <==> grid[y, x].isSet;
        if grid[y, x].isSet {
          return true;
        }
        i := i + 1;
      }
      return false;
    }

    /** finalize_block */
    method FinalizeBlock()
      requires Shape() && Inside(blk)
      modifies grid
      ensures Rows() == Stamp(old(Rows()), blk, |blk.shape|)
    {
      var i := 0;
      while i < |blk.shape|
        invariant i <= |blk.shape| && Rows() == Stamp(old(Rows()), blk, i)
      {
        assert PointInside(blk, i);
        var p := blk.shape[i];
        SetCell(blk.y + p.y, blk.x + p.x, blk.color);
        i := i + 1;
      }
    }

    method SetCell(y: nat, x: nat, color: nat)
      requires Shape() && y < GRID_HEIGHT && x < GRID_WIDTH
      modifies grid
      ensures Rows() == SetAt(old(Rows()), y, x, color)
    {
      grid[y, x] := Cell(true, color);
      forall r | 0 <= r < GRID_HEIGHT
        ensures RowAt(r) == if r == y then old(RowAt(y))[x := Cell(true, color)] else old(RowAt(r))
      {
      }
    }

    /** rotate_block's search for the current shape, told by its place, and the step to the next. */
    method RotateBlock(b: Block) returns (r: Block)
      requires GoodBlock(b)
      ensures r == Rotated(b)
    {
      var idx, current := 0, -1;
      while idx < |b.group| && current < 0
        invariant idx <= b.place && (current == -1 || current == b.place)
        decreases |b.group| - idx, -current
      {
        if idx == b.place {
          current := idx;
        } else {
          idx := idx + 1;
        }
      }
      var next := if current < 0 then 0 else (current + 1) % |b.group|;
      r := b.(place := next, shape := b.group[next]);
    }

    /** on_key_blank */
    method OnKeyBlank()
      requires Valid()
      modifies this`blk, this`stuck
      ensures Valid()
      ensures blk == (if isRunning && !Clashes(Rows(), Rotated(old(blk))) then Rotated(old(blk)) else old(blk))
    {
      if !isRunning {
        return;
      }
      var tmp := RotateBlock(blk);
      var clash := IsBlockClashing(tmp);
      if !clash {
        MoveTo(tmp);
      }
    }

    /** The block goes where it does not clash. */
    method MoveTo(b: Block)
      requires Valid() && started && GoodBlock(b) && !Clashes(Rows(), b)
      modifies this`blk, this`stuck
      ensures Valid() && blk == b
    {
      InsideIfNotClashing(Rows(), b);
      blk := b;
      stuck := false;
    }

    /** on_key_arrow_left and on_key_arrow_right: one column, if that does not clash. */
    method OnKeyArrowSideways(dx: int)
      requires Valid() && (dx == -1 || dx == 1)
      modifies this`blk, this`stuck
      ensures Valid()
      ensures var moved := old(blk).(x := old(blk).x + dx);
              blk == (if isRunning && !Clashes(Rows(), moved) then moved else old(blk))
    {
      if !isRunning {
        return;
      }
      var tmp := blk.(x := blk.x + dx);
      var clash := IsBlockClashing(tmp);
      if !clash {
        MoveTo(tmp);
      }
    }

    /** on_key_arrow_down; `next` is the block that new_block would pick. */
    method OnKeyArrowDown(next: Block)
      requires Valid() && GoodBlock(next) && Inside(next)
      modifies this, grid
      ensures Valid() && started == old(started) && resumed == old(resumed)
      ensures old(!isRunning || !Clashes(Rows(), blk.(y := blk.y + 1))) ==>
                && Rows() == old(Rows()) && score == old(score) && landed == old(landed) && isRunning == old(isRunning)
                && blk == if isRunning then old(blk).(y := old(blk).y + 1) else old(blk)
      ensures old(isRunning && Clashes(Rows(), blk.(y := blk.y + 1))) ==>
                && Rows() == Settled(old(Rows()), old(blk)) && score == old(score) + Completed(old(Rows()), old(blk))
                && landed == old(landed) + 1 && blk == next
                && isRunning == !stuck && (overlapped > old(overlapped) <==> old(stuck))
    {
      if isRunning {
        var tmp := blk.(y := blk.y + 1);
        var clash := IsBlockClashing(tmp);
        if clash {
          LandAndSpawn(next);
        } else {
          MoveTo(tmp);
        }
      }
    }

    /** The branch of on_key_arrow_down in which the block has nowhere to go. */
    method LandAndSpawn(next: Block)
      requires Valid() && isRunning && GoodBlock(next) && Inside(next)
      modifies this, grid
      ensures Valid() && started == old(started) && resumed == old(resumed)
      ensures Rows() == Settled(old(Rows()), old(blk)) && score == old(score) + Completed(old(Rows()), old(blk))
      ensures landed == old(landed) + 1 && blk == next && isRunning == !stuck
      ensures overlapped > old(overlapped) <==> old(stuck)
    {
      Land();
      ghost var rows := Rows();
      Spawn(next);
      assert Rows() == rows;
    }

    /** The next block; the game is over if there is no room for it. */
    method Spawn(next: Block)
      requires Shape() && GoodBlock(next) && Inside(next)
      modifies this`blk, this`isRunning, this`stuck
      ensures Rows() == old(Rows())
      ensures blk == next && BlockOk() && isRunning == !stuck
    {
      blk := next;
      var over := IsBlockClashing(blk);
      isRunning := !over;
      stuck := over;
    }

    /** Freeze the block and purge full rows, keeping the books. */
    method Land()
      requires Valid() && isRunning
      modifies grid, this`score, this`landed, this`purgedRows, this`overlapped
      ensures Rows() == Settled(old(Rows()), blk) && score == old(score) + Completed(old(Rows()), blk)
      ensures landed == old(landed) + 1
      ensures SetCells(Rows()) + GRID_WIDTH * purgedRows + overlapped == 4 * landed
      ensures overlapped >= old(overlapped) && (overlapped > old(overlapped) <==> stuck)
    {
      ghost var before := Rows();
      FreezeAndPurge();
      LandingBooks(before, blk);
      landed := landed + 1;
      purgedRows := purgedRows + Completed(before, blk);
      overlapped := overlapped + Overlap(before, blk, |blk.shape|);
      assert Rows() == Settled(before, blk);
    }

    method FreezeAndPurge()
      requires Shape() && Inside(blk)
      modifies grid, this`score
      ensures Rows() == Settled(old(Rows()), blk) && score == old(score) + Completed(old(Rows()), blk)
    {
      FinalizeBlock();
      var purged := PurgeGrid();
    }

    /** A new block in a clear well. */
    method PlaceFirst(next: Block)
      requires Shape() && GoodBlock(next) && Inside(next)
      requires forall y :: 0 <= y < GRID_HEIGHT ==> Clear(Rows()[y])
      modifies this`blk, this`stuck
      ensures Rows() == old(Rows())
      ensures blk == next && !stuck && BlockOk()
    {
      blk := next;
      stuck := false;
      ClearWellFree(Rows(), blk);
    }

    /** tetris_start: Enter begins, pauses and resumes; a running block overlaps set cells exactly after a game over. */
    method TetrisStart(next: Block)
      requires Valid() && GoodBlock(next) && Inside(next)
      modifies this
      ensures Valid() && started && isRunning == !old(isRunning) && Rows() == old(Rows())
      ensures blk == if old(started) then old(blk) else next
      ensures isRunning && Clashes(Rows(), blk) <==> old(GameOver())
      ensures resumed == (old(resumed) || old(GameOver()))
    {
      ghost var over := GameOver();
      if !started {
        PlaceFirst(next);
        started := true;
      }
      isRunning := !isRunning;
      resumed := resumed || over;
    }

    /** memset on the whole grid. */
    method ZeroGrid()
      requires Shape()
      modifies grid
      ensures SetCells(Rows()) == 0 && Blank(Rows())
    {
      forall y, x | 0 <= y < GRID_HEIGHT && 0 <= x < GRID_WIDTH {
        grid[y, x] := Cell(false, 0);
      }
      ClearBoardCount(Rows());
    }

    method Restart(next: Block)
      requires Shape() && started && GoodBlock(next) && Inside(next)
      modifies this, grid
      ensures Valid() && started && score == old(score)
      ensures isRunning && !stuck && !resumed && landed == 0 && purgedRows == 0 && overlapped == 0
      ensures blk == next && SetCells(Rows()) == 0 && Blank(Rows())
    {
      landed, purgedRows, overlapped, resumed, isRunning := 0, 0, 0, false, true;
      ZeroGrid();
      PlaceFirst(next);
    }

    /** tetris_reset: an empty well and a clean slate. */
    method TetrisReset(next: Block)
      requires Valid() && GoodBlock(next) && Inside(next)
      modifies this, grid
      ensures Valid() && started == old(started)
      ensures !started ==> unchanged(this) && Rows() == old(Rows())
      ensures started ==>
                && isRunning && !stuck && !resumed && landed == 0 && purgedRows == 0 && overlapped == 0
                && blk == next && score == old(score) && SetCells(Rows()) == 0 && Blank(Rows())
    {
      if !started {
        return;
      }
      Restart(next);
    }
  }

  // A game that ends: bars dropped on one another fill their column.

  const BAR_COLUMN: nat := 8

  ghost predicate OnlyBars(rows: seq<Row>)
    requires WellShaped(rows)
  {
    forall y: nat, x: nat :: y < GRID_HEIGHT && x < GRID_WIDTH && x != BAR_COLUMN ==> !CellAt(rows, y, x).isSet
  }

  ghost predicate IsBar(b: Block) {
    |b.shape| == 4 && forall i :: 0 <= i < 4 ==> b.Column(i) == BAR_COLUMN
  }

  lemma {:induction false} AtMostOne(row: Row, k: int)
    requires forall x :: 0 <= x < |row| && x != k ==> !row[x].isSet
    ensures SetInRow(row) <= if 0 <= k then 1 else 0
  {
    if row != [] {
      AtMostOne(row[1..], k - 1);
    }
  }

  lemma {:induction false} OnePerRow(rows: seq<Row>)
    requires forall r :: r in rows ==> SetInRow(r) <= 1
    ensures SetCells(rows) <= |rows|
  {
    if rows != [] {
      OnePerRow(rows[1..]);
    }
  }

  lemma {:induction false} NoneFull(rows: seq<Row>)
    requires forall r :: r in rows ==> !Full(r)
    ensures FullRows(rows) == 0
  {
    if rows != [] {
      NoneFull(rows[1..]);
    }
  }

  /** A well with nothing but bars has no full row and at most one set cell in each. */
  lemma BarsNeverFill(rows: seq<Row>)
    requires WellShaped(rows) && OnlyBars(rows)
    ensures FullRows(rows) == 0 && SetCells(rows) <= GRID_HEIGHT
  {
    forall r | r in rows ensures !Full(r) && SetInRow(r) <= 1 {
      var y :| 0 <= y < |rows| && rows[y] == r;
      assert forall x: nat :: x < GRID_WIDTH && x != BAR_COLUMN ==> !CellAt(rows, y, x).isSet && CellAt(rows, y, x) == r[x];
      assert r[0] in r;
      AtMostOne(r, BAR_COLUMN);
    }
    NoneFull(rows);
    OnePerRow(rows);
  }

  /** Landing a bar on bars adds four cells to their column and purges nothing. */
  lemma BarLands(rows: seq<Row>, b: Block)
    requires WellShaped(rows) && OnlyBars(rows) && GoodBlock(b) && Inside(b) && IsBar(b) && !Clashes(rows, b)
    ensures WellShaped(Settled(rows, b)) && OnlyBars(Settled(rows, b))
    ensures SetCells(Settled(rows, b)) == SetCells(rows) + 4
  {
    var stamped := Stamp(rows, b, |b.shape|);
    assert OnlyBars(stamped) by {
      forall y: nat, x: nat | y < GRID_HEIGHT && x < GRID_WIDTH && x != BAR_COLUMN ensures !CellAt(stamped, y, x).isSet {
        StampCell(rows, b, |b.shape|, y, x);
      }
    }
    BarsNeverFill(stamped);
    NothingFull(stamped);
    LandingBooks(rows, b);
  }

  lemma NewBar()
    ensures |Group(1)| > 0 && IsBar(NewBlock(1, 0, 0))
  {
    var b := NewBlock(1, 0, 0);
    assert b.shape == [P(0, 0), P(1, 0), P(2, 0), P(3, 0)] && b.x == BAR_COLUMN;
  }

  /** One bar after another, straight down: the game is over, and Enter then runs a block on top of set cells. */
  method PlayBars() returns (g: Game)
    ensures fresh(g) && g.Valid() && g.isRunning && Clashes(g.Rows(), g.blk)
  {
    NewBar();
    NewBlockFits(1, 0, 0);
    g := PlayUntilOver(NewBlock(1, 0, 0));
    g.TetrisStart(NewBlock(1, 0, 0));
  }

  method PlayUntilOver(bar: Block) returns (g: Game)
    requires GoodBlock(bar) && Inside(bar) && IsBar(bar)
    ensures fresh(g) && fresh(g.grid) && g.Valid() && g.GameOver()
  {
    g := new Game();
    assert OnlyBars(g.Rows()) by {
      forall y: nat, x: nat | y < GRID_HEIGHT && x < GRID_WIDTH ensures !CellAt(g.Rows(), y, x).isSet {
        assert Clear(g.Rows()[y]);
      }
    }
    g.TetrisStart(bar);
    DropBars(g, bar);
  }

  method DropBars(g: Game, next: Block)
    requires g.Valid() && g.started && g.isRunning && !g.resumed && OnlyBars(g.Rows()) && IsBar(g.blk)
    requires GoodBlock(next) && Inside(next) && IsBar(next)
    modifies g, g.grid
    ensures g.Valid() && g.GameOver()
  {
    while g.isRunning
      invariant g.Valid() && g.started && !g.resumed && OnlyBars(g.Rows()) && IsBar(g.blk) && (g.isRunning || g.stuck)
      decreases GRID_HEIGHT + 4 - SetCells(g.Rows()), GRID_HEIGHT - g.blk.y
    {
      DropBar(g, next);
    }
  }

  /** One press of the arrow key: the bar is one row lower, or four more cells are set. */
  method DropBar(g: Game, next: Block)
    requires g.Valid() && g.started && g.isRunning && !g.resumed && OnlyBars(g.Rows()) && IsBar(g.blk)
    requires GoodBlock(next) && Inside(next) && IsBar(next)
    modifies g, g.grid
    ensures g.Valid() && g.started && !g.resumed && OnlyBars(g.Rows()) && IsBar(g.blk) && (g.isRunning || g.stuck)
    ensures SetCells(old(g.Rows())) <= GRID_HEIGHT && old(g.blk.y) < GRID_HEIGHT
    ensures SetCells(g.Rows()) > old(SetCells(g.Rows())) ||
            (SetCells(g.Rows()) == old(SetCells(g.Rows())) && g.blk.y == old(g.blk.y) + 1)
  {
    ghost var rows, b := g.Rows(), g.blk;
    assert SetCells(rows) <= GRID_HEIGHT by { BarsNeverFill(rows); }
    assert PointInside(b, 0);
    g.OnKeyArrowDown(next);
    if Clashes(rows, b.(y := b.y + 1)) {
      BarLands(rows, b);
    } else {
      LowerBar(b);
    }
  }

  lemma LowerBar(b: Block)
    requires IsBar(b)
    ensures IsBar(b.(y := b.y + 1))
  {
    var lower := b.(y := b.y + 1);
    forall i | 0 <= i < 4 ensures lower.Column(i) == BAR_COLUMN {
      assert b.Column(i) == BAR_COLUMN;
    }
  }
}

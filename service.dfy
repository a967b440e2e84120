/** The engine: the match rules and the `GameService` object whose methods deal,
    match, remove, replenish and hint, updating its grid and counters in place. */
module Service {
  import opened GameModels
  import opened Board
  import opened Paths

  /** `TOTAL_STARTING_CELLS`: tiles in a fresh deal. */
  const TotalStartingCells: int := 42
  /** Points for every removed pair. */
  const BaseScore: int := 10
  /** Extra points per consecutive match beyond the first. */
  const ComboStep: int := 5
  const InitialHints: int := 5
  const InitialAdds: int := 3

  // ---------------------------------------------------------------- the match rules

  /** The value rule: equal values, or values summing to ten. */
  predicate ValueRule(v1: int, v2: int) {
    v1 == v2 || v1 + v2 == 10
  }

  /** Both cells of the grid hold values, and the values obey the value rule. */
  predicate ValuesAgree(g: Grid, a: Point, b: Point) {
    && InGrid(g, a) && InGrid(g, b)
    && g[a.row][a.col].value.Some? && g[b.row][b.col].value.Some?
    && ValueRule(g[a.row][a.col].value.value, g[b.row][b.col].value.value)
  }

  /** `a` and `b` form a legal pair: two distinct occupied cells whose values obey
      the value rule and which are connectable. */
  predicate CanMatch(g: Grid, a: Point, b: Point) {
    Occupied(g, a) && Occupied(g, b) && a != b && ValuesAgree(g, a, b) && Connectable(g, a, b)
  }

  /** (a, b) comes before (x, y) in the order the hint search visits pairs: by first
      row, first column, second row, second column. */
  predicate PairBefore(a: Point, b: Point, x: Point, y: Point) {
    || a.row < x.row
    || (a.row == x.row && a.col < x.col)
    || (a == x && b.row < y.row)
    || (a == x && b.row == y.row && b.col < y.col)
  }

  /** No pair visited before (x, y) is legal. */
  ghost predicate NoMatchBefore(g: Grid, x: Point, y: Point) {
    forall a, b :: PairBefore(a, b, x, y) ==> !CanMatch(g, a, b)
  }

  /** A `numbersCleared` table: one 0/1 flag for each tile value 1..9. */
  ghost predicate FlagTable(m: map<int, int>) {
    (forall v :: v in m <==> 1 <= v <= 9) && (forall v :: v in m ==> 0 <= m[v] <= 1)
  }

  /** Every flag reset to 0, as `initNumbersCleared` leaves them. */
  ghost predicate AllZero(m: map<int, int>) {
    (forall v :: v in m <==> 1 <= v <= 9) && (forall v :: v in m ==> m[v] == 0)
  }

  /** A deal: 42 tile values, each 1..9. */
  predicate IsDeal(deal: seq<int>) {
    |deal| == TotalStartingCells && forall k :: 0 <= k < |deal| ==> 1 <= deal[k] <= 9
  }

  // ---------------------------------------------------------------- the hint search order

  lemma {:induction false} NoMatchBeforeStart(g: Grid)
    ensures NoMatchBefore(g, Point(0, 0), Point(0, 0))
  {
  }

  lemma {:induction false} NoMatchNextSecond(g: Grid, x: Point, y: Point)
    requires NoMatchBefore(g, x, y) && !CanMatch(g, x, y)
    ensures NoMatchBefore(g, x, Point(y.row, y.col + 1))
  {
  }

  lemma {:induction false} NoMatchNextSecondRow(g: Grid, x: Point, r2: int)
    requires Rectangular(g) && NoMatchBefore(g, x, Point(r2, Cols))
    ensures NoMatchBefore(g, x, Point(r2 + 1, 0))
  {
  }

  lemma {:induction false} NoMatchNextFirst(g: Grid, x: Point)
    requires Rectangular(g) && NoMatchBefore(g, x, Point(|g|, 0))
    ensures NoMatchBefore(g, Point(x.row, x.col + 1), Point(0, 0))
  {
  }

  lemma {:induction false} NoMatchSkipFirst(g: Grid, x: Point)
    requires NoMatchBefore(g, x, Point(0, 0)) && !Occupied(g, x)
    ensures NoMatchBefore(g, Point(x.row, x.col + 1), Point(0, 0))
  {
  }

  lemma {:induction false} NoMatchNextFirstRow(g: Grid, r1: int)
    requires Rectangular(g) && NoMatchBefore(g, Point(r1, Cols), Point(0, 0))
    ensures NoMatchBefore(g, Point(r1 + 1, 0), Point(0, 0))
  {
  }

  /** Once the search has passed every first cell, no legal pair exists. */
  lemma {:induction false} NoMatchAnywhere(g: Grid)
    requires Rectangular(g) && NoMatchBefore(g, Point(|g|, 0), Point(0, 0))
    ensures forall a, b :: !CanMatch(g, a, b)
  {
    forall a, b
      ensures !CanMatch(g, a, b)
    {
      if a.row < |g| {
        assert PairBefore(a, b, Point(|g|, 0), Point(0, 0));
      }
    }
  }

  // ---------------------------------------------------------------- consequences of a match

  /** Removing a legal pair and compacting leaves exactly two fewer tiles, and the
      win condition is then "no occupied value left". */
  lemma {:induction false} MatchRemovesTwo(g: Grid, p1: Point, p2: Point)
    requires WellFormed(g) && CanMatch(g, p1, p2)
    ensures InGrid(Vacated(g, p1), p2)
    ensures |OccupiedValues(Compacted(Vacated(Vacated(g, p1), p2)))| == |OccupiedValues(g)| - 2
  {
    RemovePairCount(g, p1, p2);
    CompactedFacts(Vacated(Vacated(g, p1), p2));
  }

  // ---------------------------------------------------------------- deal and replenish

  /** A fresh deal: five rows of nine, the 42 values read back in row-major order,
      and the three cells after them pristine and empty. */
  lemma {:induction false} FreshDeal(deal: seq<int>)
    requires IsDeal(deal)
    ensures var g := LayOut(deal, 0);
            && |g| == 5 && Rectangular(g) && WellFormed(g)
            && OccupiedValues(g) == deal && |OccupiedValues(g)| == TotalStartingCells
            && forall k :: TotalStartingCells <= k < |g| * Cols ==>
                 IsPristine(CellAt(g, k)) && CellAt(g, k).value == None
  {
    var g := LayOut(deal, 0);
    assert |g| == 5;
    LayOutValues(deal, 0);
    LayOutWellFormed(deal, 0);
    WellFormedRectangular(g);
    forall k | TotalStartingCells <= k < |g| * Cols
      ensures IsPristine(CellAt(g, k)) && CellAt(g, k).value == None
    {
      LayOutCell(deal, 0, k / Cols, k % Cols);
    }
  }

  /** Replenishing copies the occupied values below the grid: reading the new grid
      back gives the old values twice over, so the number of tiles doubles. */
  lemma {:induction false} ReplenishDoubles(g: Grid)
    ensures OccupiedValues(g + LayOut(OccupiedValues(g), |g|)) == OccupiedValues(g) + OccupiedValues(g)
    ensures |OccupiedValues(g + LayOut(OccupiedValues(g), |g|))| == 2 * |OccupiedValues(g)|
  {
    OccupiedValuesAppend(g, LayOut(OccupiedValues(g), |g|));
    LayOutValues(OccupiedValues(g), |g|);
  }

  // ---------------------------------------------------------------- the engine

  class GameService {
    var grid: Grid
    var currentScore: int
    var stage: int
    var numbersCleared: map<int, int>
    var allTimeScore: int
    var hintsRemaining: int
    var addsRemaining: int
    var comboCount: int

    /** What every public operation keeps: a well-formed grid, stage 1 (nothing in
        the engine advances it), non-negative counters and a full flag table. */
    ghost predicate Valid()
      reads this
    {
      && WellFormed(grid) && Rectangular(grid)
      && stage == 1
      && comboCount >= 0 && hintsRemaining >= 0 && addsRemaining >= 0
      && FlagTable(numbersCleared)
    }

    /** The service as created: the saved all-time score is loaded (it is a parameter
        here), the flags are reset and a game is dealt from `deal`. */
    constructor (savedAllTimeScore: int, deal: seq<int>)
      requires IsDeal(deal)
      ensures Valid()
      ensures grid == LayOut(deal, 0)
      ensures currentScore == 0 && comboCount == 0 && AllZero(numbersCleared)
      ensures allTimeScore == savedAllTimeScore
      ensures hintsRemaining == InitialHints && addsRemaining == InitialAdds
    {
      grid := [];
      currentScore := 0;
      stage := 1;
      numbersCleared := map[];
      allTimeScore := savedAllTimeScore;
      hintsRemaining := InitialHints;
      addsRemaining := InitialAdds;
      comboCount := 0;
      new;
      InitNumbersCleared();
      InitGame(deal);
    }

    method InitNumbersCleared()
      requires forall v :: v in numbersCleared ==> 1 <= v <= 9
      modifies this`numbersCleared
      ensures AllZero(numbersCleared)
    {
      var i := 1;
      while i <= 9
        invariant 1 <= i <= 10
        invariant forall v :: v in numbersCleared <==> (1 <= v < i || v in old(numbersCleared))
        invariant forall v :: 1 <= v < i ==> numbersCleared[v] == 0
      {
        numbersCleared := numbersCleared[i := 0];
        i := i + 1;
      }
    }

    /** Deals a new game: 42 tiles laid out row by row, nine to a row, the last row
        padded with pristine cells. Score, combo and flags are reset; the hint and
        add counters are not. */
    method InitGame(deal: seq<int>)
      requires Valid() && IsDeal(deal)
      modifies this
      ensures Valid()
      ensures grid == LayOut(deal, 0)
      ensures currentScore == 0 && comboCount == 0 && AllZero(numbersCleared)
      ensures allTimeScore == old(allTimeScore) && stage == old(stage)
      ensures hintsRemaining == old(hintsRemaining) && addsRemaining == old(addsRemaining)
    {
      grid := [];
      currentScore := 0;
      comboCount := 0;
      InitNumbersCleared();

      ghost var dealt := LayOut(deal, 0);
      assert |dealt| == 5;
      var cellsCreated := 0;
      var r := 0;
      while cellsCreated < TotalStartingCells
        modifies this`grid
        invariant 0 <= r <= 5 && cellsCreated == Min(r * Cols, TotalStartingCells)
        invariant grid == dealt[..r]
      {
        var row;
        row, cellsCreated := DealRow(deal, r, cellsCreated);
        assert dealt[..r + 1] == dealt[..r] + [dealt[r]];
        grid := grid + [row];
        r := r + 1;
      }
      assert grid == dealt;
      LayOutWellFormed(deal, 0);
    }

    /** `checkWin`: the board is cleared exactly when no occupied value remains. */
    function CheckWin(): (won: bool)
      reads this
      requires Valid()
      ensures won <==> OccupiedValues(grid) == []
    {
      AllVacantIffNoValues(grid);
      AllVacant(grid)
    }

    /** Checks the pair (p1, p2) without changing anything (the removal is the
        delayed `RemoveTiles`). The result is true exactly for a legal pair; the
        event says what the presentation layer is told. */
    method TryMatch(p1: Point, p2: Point) returns (matched: bool, event: MatchEvent)
      requires Valid() && InGrid(grid, p1) && InGrid(grid, p2)
      ensures matched <==> CanMatch(grid, p1, p2)
      ensures !Occupied(grid, p1) || !Occupied(grid, p2) || p1 == p2 ==> event == NoEvent
      ensures Occupied(grid, p1) && Occupied(grid, p2) && p1 != p2 && !ValuesAgree(grid, p1, p2) ==>
                event == FailedMatch([p1, p2])
      ensures Occupied(grid, p1) && Occupied(grid, p2) && p1 != p2 && ValuesAgree(grid, p1, p2) && !Connectable(grid, p1, p2) ==>
                event == FailedMatch([p1, p2] + AttemptedCells(p1, p2))
      ensures matched ==> event == MatchFound(ResolvedPath(grid, p1, p2).value, [p1, p2])
    {
      var cell1 := grid[p1.row][p1.col];
      var cell2 := grid[p2.row][p2.col];
      if !cell1.isOccupied || !cell2.isOccupied {
        return false, NoEvent;
      }
      if p1.row == p2.row && p1.col == p2.col {
        return false, NoEvent;
      }
      assert SoundCell(cell1) && SoundCell(cell2);
      var v1 := cell1.value.value;
      var v2 := cell2.value.value;
      if !ValueRule(v1, v2) {
        return false, FailedMatch([p1, p2]);
      }
      var path := FindPath(p1, p2);
      if path.Some? {
        return true, MatchFound(path.value, [p1, p2]);
      }
      var attemptedPathCells := GetAttemptedPathCells(p1, p2);
      return false, FailedMatch([p1, p2] + attemptedPathCells);
    }

    /** Removes a matched pair: the combo grows, the score grows by 10 plus 5 per
        earlier match in the combo, the all-time best follows, both cells are vacated,
        the flags are recomputed and empty rows are dropped. */
    method RemoveTiles(p1: Point, p2: Point)
      requires Valid() && InGrid(grid, p1) && InGrid(grid, p2)
      modifies this
      ensures Valid()
      ensures comboCount == old(comboCount) + 1
      ensures currentScore == old(currentScore) + BaseScore + ComboStep * old(comboCount)
      ensures allTimeScore == Max(old(allTimeScore), currentScore)
      ensures InGrid(Vacated(old(grid), p1), p2)
      ensures grid == Compacted(Vacated(Vacated(old(grid), p1), p2))
      ensures numbersCleared == ClearedFlags(grid)
      ensures stage == old(stage) && hintsRemaining == old(hintsRemaining) && addsRemaining == old(addsRemaining)
    {
      comboCount := comboCount + 1;
      var baseScore := BaseScore;
      var comboBonus := Max(0, (comboCount - 1) * ComboStep);
      currentScore := currentScore + baseScore + comboBonus;
      if currentScore > allTimeScore {
        allTimeScore := currentScore;
      }

      ghost var g0 := grid;
      VacatedWellFormed(grid, p1);
      grid := grid[p1.row := grid[p1.row][p1.col := grid[p1.row][p1.col].(isOccupied := false, value := None)]];
      VacatedWellFormed(grid, p2);
      grid := grid[p2.row := grid[p2.row][p2.col := grid[p2.row][p2.col].(isOccupied := false, value := None)]];
      ghost var vacated := grid;

      UpdateNumbersCleared();
      var removedRows := CheckAndRemoveEmptyRows();
      CompactedClearedFlags(vacated);
    }

    /** Recomputes the flags: 1 for a value no occupied cell holds, 0 otherwise. */
    method UpdateNumbersCleared()
      requires Valid()
      modifies this`numbersCleared
      ensures Valid()
      ensures numbersCleared == ClearedFlags(grid)
    {
      InitNumbersCleared();
      var remaining := CountRemaining();
      numbersCleared := MarkCleared(numbersCleared, remaining);
      ClearedFlagsFromTally(grid, numbersCleared);
    }

    /** `remaining`: how many occupied cells hold each value; values held by no
        cell have no entry. */
    method CountRemaining() returns (remaining: map<int, int>)
      requires Rectangular(grid)
      ensures remaining == Tally(OccupiedValues(grid))
      ensures forall v :: v in remaining ==> remaining[v] >= 1
    {
      remaining := map[];
      var r := 0;
      while r < |grid|
        invariant 0 <= r <= |grid|
        invariant remaining == Tally(OccupiedValues(grid[..r]))
      {
        remaining := CountRow(grid[r], remaining);
        TallyRowMeaning(OccupiedValues(grid[..r]), grid[r]);
        OccupiedValuesPrefix(grid, r);
        r := r + 1;
      }
      assert grid[..|grid|] == grid;
      TallyMeaning(OccupiedValues(grid));
    }

    /** Drops every all-empty row and renumbers the cells. Returns the removed row
        indices, largest first, as the row-removal event carries them. */
    method CheckAndRemoveEmptyRows() returns (removedRows: seq<int>)
      requires Valid()
      modifies this`grid
      ensures Valid()
      ensures grid == Compacted(old(grid))
      ensures forall k :: k in removedRows <==> 0 <= k < |old(grid)| && IsEmptyRow(old(grid)[k])
      ensures forall a, b :: 0 <= a < b < |removedRows| ==> removedRows[a] > removedRows[b]
    {
      ghost var g0 := grid;
      removedRows := DropEmptyRows();
      RenumberCells();
      CompactedFacts(g0);
      EmptyRowIndicesFacts(g0, 0);
    }

    /** The bottom-up splice loop: every all-empty row is removed, the others keep
        their order. */
    method DropEmptyRows() returns (removedRows: seq<int>)
      modifies this`grid
      ensures grid == KeepNonEmpty(old(grid))
      ensures removedRows == EmptyRowIndices(old(grid), 0)
    {
      ghost var g0 := grid;
      removedRows := [];
      var r := |grid| - 1;
      while r >= 0
        invariant -1 <= r < |g0|
        invariant grid == g0[..r + 1] + KeepNonEmpty(g0[r + 1..])
        invariant removedRows == EmptyRowIndices(g0, r + 1)
      {
        KeepNonEmptyStep(g0, r);
        var isEmpty := IsEmptyRow(grid[r]);
        if isEmpty {
          removedRows := removedRows + [r];
          grid := grid[..r] + grid[r + 1..];
        }
        r := r - 1;
      }
      assert g0[0..] == g0;
    }

    /** Sets every cell's `row`/`col` to its position. */
    method RenumberCells()
      modifies this`grid
      ensures grid == Renumbered(old(grid))
    {
      ghost var kept := grid;
      ghost var renumbered := Renumbered(kept);
      var rIdx := 0;
      while rIdx < |grid|
        invariant 0 <= rIdx <= |grid| == |kept|
        invariant forall a :: 0 <= a < rIdx ==> grid[a] == renumbered[a]
        invariant forall a :: rIdx <= a < |grid| ==> grid[a] == kept[a]
      {
        ghost var row0 := kept[rIdx];
        var cIdx := 0;
        while cIdx < |grid[rIdx]|
          invariant |grid| == |kept| && |grid[rIdx]| == |row0|
          invariant 0 <= cIdx <= |row0|
          invariant forall a :: 0 <= a < rIdx ==> grid[a] == renumbered[a]
          invariant forall a :: rIdx < a < |grid| ==> grid[a] == kept[a]
          invariant forall c :: 0 <= c < cIdx ==> grid[rIdx][c] == row0[c].(row := rIdx, col := c)
          invariant forall c :: cIdx <= c < |row0| ==> grid[rIdx][c] == row0[c]
        {
          grid := grid[rIdx := grid[rIdx][cIdx := grid[rIdx][cIdx].(row := rIdx, col := cIdx)]];
          cIdx := cIdx + 1;
        }
        RenumberedCell(kept, rIdx, 0);
        forall c | 0 <= c < |row0|
          ensures grid[rIdx][c] == renumbered[rIdx][c]
        {
          RenumberedCell(kept, rIdx, c);
        }
        rIdx := rIdx + 1;
      }
      if |kept| > 0 {
        RenumberedCell(kept, 0, 0);
      }
      assert grid == renumbered;
    }

    /** The values of the occupied cells in row-major order (`L`). */
    method CollectOccupiedValues() returns (values: seq<int>)
      requires Valid()
      ensures values == OccupiedValues(grid)
    {
      values := [];
      var r := 0;
      while r < |grid|
        invariant 0 <= r <= |grid|
        invariant values == OccupiedValues(grid[..r])
      {
        assert WellFormedRow(grid[r], r);
        values := CollectRow(grid[r], values);
        OccupiedValuesPrefix(grid, r);
        r := r + 1;
      }
      assert grid[..|grid|] == grid;
    }

    /** `insertPos`: the flattened index of the last pristine cell, or -1. */
    method LastPristineIndex() returns (insertPos: int)
      requires Valid()
      ensures -1 <= insertPos < |grid| * Cols
      ensures insertPos >= 0 ==> IsPristine(CellAt(grid, insertPos))
      ensures forall k :: insertPos < k < |grid| * Cols ==> !IsPristine(CellAt(grid, k))
    {
      insertPos := -1;
      var i := |grid| * Cols - 1;
      while i >= 0
        invariant -1 <= i < |grid| * Cols
        invariant forall k :: i < k < |grid| * Cols ==> !IsPristine(CellAt(grid, k))
      {
        if IsPristine(CellAt(grid, i)) {
          insertPos := i;
          return;
        }
        i := i - 1;
      }
    }

    /** Uses one add: the values of all occupied cells, in row-major order, are
        appended after the last pristine cell. Every cell after that one has been
        occupied at some time, so the copy always starts on a new row. Returns the
        positions filled and the values copied; both are empty when no add is left
        or the board holds no tile. */
    method AddNumbers() returns (positions: seq<Point>, values: seq<int>)
      requires Valid()
      modifies this
      ensures Valid()
      ensures old(addsRemaining) <= 0 ==>
                grid == old(grid) && addsRemaining == old(addsRemaining) && comboCount == old(comboCount)
                && positions == [] && values == []
      ensures old(addsRemaining) > 0 ==>
                addsRemaining == old(addsRemaining) - 1 && comboCount == 0
                && values == OccupiedValues(old(grid))
                && grid == old(grid) + LayOut(values, |old(grid)|)
      ensures positions == seq(|values|, k requires 0 <= k < |values| => PointOf(|old(grid)| * Cols + k))
      ensures currentScore == old(currentScore) && allTimeScore == old(allTimeScore)
      ensures hintsRemaining == old(hintsRemaining) && numbersCleared == old(numbersCleared) && stage == old(stage)
    {
      positions, values := [], [];
      if addsRemaining <= 0 {
        return;
      }
      addsRemaining := addsRemaining - 1;
      comboCount := 0;

      var L := CollectOccupiedValues();
      if |L| == 0 {
        values := L;
        return;
      }

      var insertPos := LastPristineIndex();
      var startIndex := insertPos + 1;
      ghost var g0 := grid;
      OccupiedValuesInRange(g0);
      var newPositions := PlaceValues(L, startIndex);
      positions, values := newPositions, L;
      AppendLayOutWellFormed(g0, L);
    }

    /** The placement loop of `addNumbers`: each value goes to the first cell at or
        after the scan position that has never been occupied. Since every cell from
        `startIndex` on has been occupied, the values land in fresh rows at the end,
        in order. */
    method PlaceValues(L: seq<int>, startIndex: int) returns (newPositions: seq<Point>)
      requires WellFormed(grid) && Rectangular(grid)
      requires 0 <= startIndex <= |grid| * Cols
      requires forall k :: startIndex <= k < |grid| * Cols ==> !IsPristine(CellAt(grid, k))
      modifies this`grid
      ensures grid == old(grid) + LayOut(L, |old(grid)|)
      ensures newPositions == seq(|L|, k requires 0 <= k < |L| => PointOf(|old(grid)| * Cols + k))
    {
      ghost var g0 := grid;
      ghost var base := |g0| * Cols;
      newPositions := [];
      var currentIdx := startIndex;
      var i := 0;
      while i < |L|
        invariant 0 <= i <= |L|
        invariant grid == g0 + LayOut(L[..i], |g0|)
        invariant |newPositions| == i && forall k :: 0 <= k < i ==> newPositions[k] == PointOf(base + k)
        invariant startIndex <= currentIdx <= base + i
        invariant i > 0 ==> currentIdx == base + i
      {
        var pos;
        currentIdx, pos := PlaceValue(L[i], currentIdx, g0, L[..i], startIndex);
        assert L[..i] + [L[i]] == L[..i + 1];
        newPositions := newPositions + [pos];
        i := i + 1;
      }
      assert L[..|L|] == L;
    }

    /** Places one value: scans forward from `currentIdx`, appending a pristine row
        whenever the scan runs past the last row, and fills the first cell that has
        never been occupied. With `vals` already copied below the old grid `g0`, that
        cell is slot `|vals|` of the copied block. */
    method PlaceValue(val: int, currentIdx: int, ghost g0: Grid, ghost vals: seq<int>, ghost startIndex: int)
      returns (nextIdx: int, pos: Point)
      requires WellFormed(g0) && Rectangular(g0)
      requires grid == g0 + LayOut(vals, |g0|)
      requires 0 <= startIndex <= currentIdx <= |g0| * Cols + |vals|
      requires |vals| > 0 ==> currentIdx == |g0| * Cols + |vals|
      requires forall k :: startIndex <= k < |g0| * Cols ==> !IsPristine(CellAt(g0, k))
      modifies this`grid
      ensures grid == g0 + LayOut(vals + [val], |g0|)
      ensures nextIdx == |g0| * Cols + |vals| + 1
      ensures pos == PointOf(|g0| * Cols + |vals|)
    {
      ghost var base := |g0| * Cols;
      ghost var i := |vals|;
      nextIdx, pos := currentIdx, PointOf(currentIdx);
      var placed := false;
      while !placed
        decreases !placed, base + i - nextIdx
        invariant !placed ==> grid == g0 + LayOut(vals, |g0|)
        invariant !placed ==> startIndex <= nextIdx <= base + i && (i > 0 ==> nextIdx == base + i)
        invariant placed ==> grid == g0 + LayOut(vals + [val], |g0|)
        invariant placed ==> nextIdx == base + i + 1 && pos == PointOf(base + i)
      {
        var r := nextIdx / Cols;
        var c := nextIdx % Cols;
        if nextIdx < base {
          StaleSlot(g0, LayOut(vals, |g0|), nextIdx);
        } else {
          FreshSlot(g0, vals, val, grid);
        }
        if r >= |grid| {
          var newRow: seq<Cell> := [];
          var nc := 0;
          while nc < Cols
            modifies {}
            invariant 0 <= nc <= Cols && newRow == PristineRow(r)[..nc]
          {
            newRow := newRow + [Cell(r, nc, None, false, false)];
            nc := nc + 1;
          }
          assert newRow == PristineRow(r);
          grid := grid + [newRow];
        }
        if !grid[r][c].wasEverOccupied {
          grid := grid[r := grid[r][c := grid[r][c].(value := Some(val), isOccupied := true, wasEverOccupied := true)]];
          pos := Point(r, c);
          placed := true;
        }
        nextIdx := nextIdx + 1;
      }
    }

    /** The straight case: the path along the line from p1 to p2 when no cell
        strictly between them is occupied. */
    method GetStraightPath(p1: Point, p2: Point) returns (path: Option<Path>)
      requires Valid() && InGrid(grid, p1) && InGrid(grid, p2)
      ensures path.Some? <==> StraightClear(grid, p1, p2)
      ensures path.Some? ==> path.value == StraightPath(p1, p2)
    {
      var dr := p2.row - p1.row;
      var dc := p2.col - p1.col;
      if dr == 0 && dc == 0 {
        return None;
      }
      var stepR := Sign(dr);
      var stepC := Sign(dc);
      if dr != 0 && dc != 0 && Abs(dr) != Abs(dc) {
        return None;
      }
      StepFacts(p1, p2, 0);
      var r := p1.row + stepR;
      var c := p1.col + stepC;
      var acc: seq<Point> := [p1];
      ghost var k := 1;
      while r != p2.row || c != p2.col
        invariant 1 <= k <= Span(p1, p2)
        invariant Point(r, c) == StepPoint(p1, p2, k)
        invariant |acc| == k && forall j :: 0 <= j < k ==> acc[j] == StepPoint(p1, p2, j)
        invariant forall j :: 0 < j < k ==> !Occupied(grid, StepPoint(p1, p2, j))
        decreases Span(p1, p2) - k
      {
        StraightInGrid(grid, p1, p2, k);
        if grid[r][c].isOccupied {
          return None;
        }
        acc := acc + [Point(r, c)];
        r := r + stepR;
        c := c + stepC;
        StepNext(p1, p2, k);
        k := k + 1;
      }
      StepFacts(p1, p2, k);
      assert k == Span(p1, p2);
      StraightPathPointwise(p1, p2, acc + [p2]);
      path := Some(acc + [p2]);
    }

    /** The scan-order case: the walk through the cells between p1 and p2 in
        row-major order when none of them is occupied. */
    method GetScanOrderPath(p1: Point, p2: Point) returns (path: Option<Path>)
      requires Valid() && InGrid(grid, p1) && InGrid(grid, p2)
      ensures path.Some? <==> ScanClear(grid, p1, p2)
      ensures path.Some? ==> path.value == ScanWalk(p1, p2)
    {
      var idx1 := p1.row * Cols + p1.col;
      var idx2 := p2.row * Cols + p2.col;
      var startIdx := Min(idx1, idx2);
      var endIdx := Max(idx1, idx2);
      var i := startIdx + 1;
      while i < endIdx
        invariant startIdx < i <= Max(endIdx, startIdx + 1)
        invariant forall k :: startIdx < k < i ==> !Occupied(grid, PointOf(k))
      {
        ScanInGrid(grid, p1, p2, i);
        if grid[i / Cols][i % Cols].isOccupied {
          return None;
        }
        i := i + 1;
      }

      var walk := ScanOrderWalk(p1, p2);
      path := Some(walk);
    }

    /** `findPath`: the straight path if there is one, else the scan-order path. */
    method FindPath(p1: Point, p2: Point) returns (path: Option<Path>)
      requires Valid() && InGrid(grid, p1) && InGrid(grid, p2)
      ensures path == ResolvedPath(grid, p1, p2)
      ensures path.Some? <==> Connectable(grid, p1, p2)
    {
      var straight := GetStraightPath(p1, p2);
      if straight.Some? {
        return straight;
      }
      var scanOrder := GetScanOrderPath(p1, p2);
      if scanOrder.Some? {
        return scanOrder;
      }
      return None;
    }

    /** The cells strictly between p1 and p2 on their line (nothing when they are
        not on a line). */
    method GetStraightPathBlocked(p1: Point, p2: Point) returns (blocked: seq<Point>)
      ensures blocked == StraightInterior(p1, p2)
    {
      var dr := p2.row - p1.row;
      var dc := p2.col - p1.col;
      if dr == 0 && dc == 0 {
        return [];
      }
      var stepR := Sign(dr);
      var stepC := Sign(dc);
      if dr != 0 && dc != 0 && Abs(dr) != Abs(dc) {
        return [];
      }
      StepFacts(p1, p2, 0);
      blocked := [];
      var r := p1.row + stepR;
      var c := p1.col + stepC;
      ghost var k := 1;
      while r != p2.row || c != p2.col
        invariant 1 <= k <= Span(p1, p2)
        invariant Point(r, c) == StepPoint(p1, p2, k)
        invariant blocked == StraightInterior(p1, p2)[..k - 1]
        decreases Span(p1, p2) - k
      {
        StepFacts(p1, p2, k);
        blocked := blocked + [Point(r, c)];
        r := r + stepR;
        c := c + stepC;
        k := k + 1;
      }
      StepFacts(p1, p2, k);
      assert k == Span(p1, p2);
    }

    /** The cells whose row-major index lies strictly between those of p1 and p2. */
    method GetScanOrderPathBlocked(p1: Point, p2: Point) returns (blocked: seq<Point>)
      ensures blocked == ScanInterior(p1, p2)
    {
      var idx1 := p1.row * Cols + p1.col;
      var idx2 := p2.row * Cols + p2.col;
      var startIdx := Min(idx1, idx2);
      var endIdx := Max(idx1, idx2);
      blocked := [];
      var i := startIdx + 1;
      while i < endIdx
        invariant startIdx < i <= Max(endIdx, startIdx + 1)
        invariant |blocked| == i - startIdx - 1
        invariant forall k :: 0 <= k < |blocked| ==> blocked[k] == PointOf(startIdx + 1 + k)
      {
        blocked := blocked + [Point(i / Cols, i % Cols)];
        i := i + 1;
      }
      ScanInteriorPointwise(p1, p2, blocked);
    }

    /** The cells to highlight after a blocked attempt: those examined by the
        straight case and then by the scan-order case, without the endpoints, each
        once in order of first appearance. */
    method GetAttemptedPathCells(p1: Point, p2: Point) returns (cells: seq<Point>)
      ensures cells == AttemptedCells(p1, p2)
      ensures forall q :: q in cells <==> (q in StraightInterior(p1, p2) || q in ScanInterior(p1, p2)) && q != p1 && q != p2
      ensures forall i, j :: 0 <= i < j < |cells| ==> cells[i] != cells[j]
    {
      var attemptedCells: seq<Point> := [];
      var straightBlocked := GetStraightPathBlocked(p1, p2);
      if |straightBlocked| > 0 {
        attemptedCells := attemptedCells + straightBlocked;
      }
      var scanOrderBlocked := GetScanOrderPathBlocked(p1, p2);
      if |scanOrderBlocked| > 0 {
        attemptedCells := attemptedCells + scanOrderBlocked;
      }
      assert attemptedCells == StraightInterior(p1, p2) + ScanInterior(p1, p2);

      var unique: seq<Point> := [];
      var i := 0;
      while i < |attemptedCells|
        invariant 0 <= i <= |attemptedCells|
        invariant unique == FirstOccurrences(attemptedCells[..i], p1, p2)
      {
        var p := attemptedCells[i];
        FirstOccurrencesStep(attemptedCells, i, p1, p2);
        if !((p.row == p1.row && p.col == p1.col) || (p.row == p2.row && p.col == p2.col)) {
          if p !in unique {
            unique := unique + [p];
          }
        }
        i := i + 1;
      }
      assert attemptedCells[..|attemptedCells|] == attemptedCells;
      cells := unique;
      FirstOccurrencesFacts(attemptedCells, p1, p2);
    }

    /** The hint search: the first legal pair in the order first row, first column,
        second row, second column, or None when the board has no legal pair. */
    method FindHintPair() returns (pair: Option<(Point, Point)>)
      requires Valid()
      ensures pair.None? <==> forall a, b :: !CanMatch(grid, a, b)
      ensures pair.Some? ==> CanMatch(grid, pair.value.0, pair.value.1)
      ensures pair.Some? ==> NoMatchBefore(grid, pair.value.0, pair.value.1)
    {
      NoMatchBeforeStart(grid);
      var r1 := 0;
      while r1 < |grid|
        invariant 0 <= r1 <= |grid|
        invariant NoMatchBefore(grid, Point(r1, 0), Point(0, 0))
      {
        var c1 := 0;
        while c1 < Cols
          invariant 0 <= c1 <= Cols
          invariant NoMatchBefore(grid, Point(r1, c1), Point(0, 0))
        {
          var p1 := Point(r1, c1);
          if !grid[r1][c1].isOccupied {
            NoMatchSkipFirst(grid, p1);
            c1 := c1 + 1;
            continue;
          }
          var r2 := 0;
          while r2 < |grid|
            invariant 0 <= r2 <= |grid|
            invariant NoMatchBefore(grid, p1, Point(r2, 0))
          {
            var c2 := 0;
            while c2 < Cols
              invariant 0 <= c2 <= Cols
              invariant NoMatchBefore(grid, p1, Point(r2, c2))
            {
              var p2 := Point(r2, c2);
              if r1 == r2 && c1 == c2 {
                NoMatchNextSecond(grid, p1, p2);
                c2 := c2 + 1;
                continue;
              }
              if !grid[r2][c2].isOccupied {
                NoMatchNextSecond(grid, p1, p2);
                c2 := c2 + 1;
                continue;
              }
              var cell1 := grid[r1][c1];
              var cell2 := grid[r2][c2];
              assert SoundCell(cell1) && SoundCell(cell2);
              var v1 := cell1.value.value;
              var v2 := cell2.value.value;
              if ValueRule(v1, v2) {
                var path := FindPath(p1, p2);
                if path.Some? {
                  assert CanMatch(grid, p1, p2);
                  return Some((p1, p2));
                }
              }
              NoMatchNextSecond(grid, p1, p2);
              c2 := c2 + 1;
            }
            NoMatchNextSecondRow(grid, p1, r2);
            r2 := r2 + 1;
          }
          NoMatchNextFirst(grid, p1);
          c1 := c1 + 1;
        }
        NoMatchNextFirstRow(grid, r1);
        r1 := r1 + 1;
      }
      NoMatchAnywhere(grid);
      return None;
    }

    /** `getHint`: while hints remain, the first legal pair of the search order,
        paid for with one hint; nothing is charged when there is no legal pair. */
    method GetHint() returns (hint: Option<(Point, Point)>)
      requires Valid()
      modifies this`hintsRemaining
      ensures Valid()
      ensures old(hintsRemaining) <= 0 ==> hint == None
      ensures old(hintsRemaining) > 0 ==> (hint.None? <==> forall a, b :: !CanMatch(grid, a, b))
      ensures hint.Some? ==> CanMatch(grid, hint.value.0, hint.value.1) && NoMatchBefore(grid, hint.value.0, hint.value.1)
      ensures hintsRemaining == old(hintsRemaining) - (if hint.Some? then 1 else 0)
    {
      if hintsRemaining <= 0 {
        return None;
      }
      hint := FindHintPair();
      if hint.Some? {
        hintsRemaining := hintsRemaining - 1;
      }
    }

    /** `getStats`: a snapshot of the counters, with a copy of the flag table. */
    method GetStats() returns (stats: Stats)
      requires Valid()
      ensures stats == Stats(currentScore, stage, numbersCleared, allTimeScore, hintsRemaining, addsRemaining)
      ensures stats.stage == 1 && stats.hintsRemaining >= 0 && stats.addsRemaining >= 0
      ensures FlagTable(stats.numbersCleared)
    {
      stats := Stats(currentScore, stage, numbersCleared, allTimeScore, hintsRemaining, addsRemaining);
    }
  }

  /** The path-building half of `getScanOrderPath`: p1, the cells whose row-major
      index lies strictly between those of p1 and p2 in order from p1's side, then p2. */
  method ScanOrderWalk(p1: Point, p2: Point) returns (walk: Path)
    ensures walk == ScanWalk(p1, p2)
  {
    var idx1 := p1.row * Cols + p1.col;
    var idx2 := p2.row * Cols + p2.col;
    var fullPath := [p1];
    if idx1 < idx2 {
      var j := idx1 + 1;
      while j < idx2
        invariant idx1 < j <= idx2
        invariant |fullPath| == j - idx1 && fullPath[0] == p1
        invariant forall k :: 0 < k < |fullPath| ==> fullPath[k] == PointOf(idx1 + k)
      {
        fullPath := fullPath + [Point(j / Cols, j % Cols)];
        j := j + 1;
      }
      assert |fullPath| == idx2 - idx1;
    } else {
      var j := idx1 - 1;
      while j > idx2
        invariant idx2 - 1 <= j < idx1 && (idx2 < idx1 ==> idx2 <= j)
        invariant |fullPath| == idx1 - j && fullPath[0] == p1
        invariant forall k :: 0 < k < |fullPath| ==> fullPath[k] == PointOf(idx1 - k)
      {
        fullPath := fullPath + [Point(j / Cols, j % Cols)];
        j := j - 1;
      }
      assert |fullPath| == Max(idx1 - idx2, 1);
    }
    assert Index(p1) == idx1 && Index(p2) == idx2;
    assert |fullPath| == Max(Abs(idx2 - idx1) - 1, 0) + 1;
    ScanWalkPointwise(p1, p2, fullPath + [p2]);
    walk := fullPath + [p2];
  }

  /** The marking loop of `updateNumbersCleared`: starting from the all-zero table,
      the flag of each value 1..9 with no remaining count is set to 1. */
  method MarkCleared(flags: map<int, int>, remaining: map<int, int>) returns (marked: map<int, int>)
    requires AllZero(flags)
    requires forall v :: v in remaining ==> remaining[v] >= 1
    ensures forall v :: v in marked <==> 1 <= v <= 9
    ensures forall v :: 1 <= v <= 9 ==> marked[v] == if v in remaining then 0 else 1
  {
    marked := flags;
    var i := 1;
    while i <= 9
      invariant 1 <= i <= 10
      invariant forall v :: v in marked <==> 1 <= v <= 9
      invariant forall v :: 1 <= v < i ==> marked[v] == if v in remaining then 0 else 1
      invariant forall v :: i <= v <= 9 ==> marked[v] == 0
    {
      if !(i in remaining && remaining[i] != 0) {
        marked := marked[i := 1];
      }
      i := i + 1;
    }
  }

  /** The inner counting loop of `updateNumbersCleared` over one row: each
      occupied value of the row counted once more in `counted`. */
  method CountRow(row: seq<Cell>, counted: map<int, int>) returns (remaining: map<int, int>)
    requires |row| == Cols
    ensures remaining == TallyRow(counted, row)
  {
    remaining := counted;
    assert row[..0] == [];
    var c := 0;
    while c < Cols
      invariant 0 <= c <= Cols
      invariant remaining == TallyRow(counted, row[..c])
    {
      var cell := row[c];
      TallyRowPrefix(counted, row, c);
      ghost var before := remaining;
      if cell.isOccupied && cell.value.Some? {
        var val := cell.value.value;
        remaining := remaining[val := (if val in remaining then remaining[val] else 0) + 1];
        assert remaining == CountCell(before, cell);
      } else {
        assert remaining == CountCell(before, cell);
      }
      c := c + 1;
    }
    assert row[..Cols] == row;
  }

  /** One pass of the dealing loop of `initGame`: row `r` of the deal, its cells
      taking the next values while fewer than 42 have been created, the rest of the
      row padded with pristine cells. */
  method DealRow(deal: seq<int>, r: int, created: int) returns (row: seq<Cell>, cellsCreated: int)
    requires IsDeal(deal) && 0 <= r < 5 && created == r * Cols
    ensures row == LayOut(deal, 0)[r]
    ensures cellsCreated == Min((r + 1) * Cols, TotalStartingCells)
  {
    ghost var dealt := LayOut(deal, 0);
    assert |dealt| == 5;
    row := [];
    cellsCreated := created;
    var c := 0;
    while c < Cols && cellsCreated < TotalStartingCells
      invariant 0 <= c <= Cols && cellsCreated == r * Cols + c <= TotalStartingCells
      invariant row == dealt[r][..c]
    {
      var val := deal[cellsCreated];
      LayOutCell(deal, 0, r, c);
      row := row + [Cell(r, c, Some(val), true, true)];
      cellsCreated := cellsCreated + 1;
      c := c + 1;
    }
    if |row| < Cols {
      var rIdx := r;
      var pc := |row|;
      while pc < Cols
        invariant |row| == pc <= Cols
        invariant row == dealt[r][..pc]
      {
        LayOutCell(deal, 0, r, pc);
        row := row + [Cell(rIdx, pc, None, false, false)];
        pc := pc + 1;
      }
    }
    LayOutCell(deal, 0, r, 0);
    assert dealt[r][..Cols] == dealt[r];
  }

  /** The inner loop of the collection in `addNumbers` over one row: the row's
      occupied values, left to right, appended to `done`. */
  method CollectRow(row: seq<Cell>, done: seq<int>) returns (values: seq<int>)
    requires |row| == Cols && SoundRow(row)
    ensures values == done + RowValues(row)
  {
    values := done;
    assert row[..0] == [];
    var c := 0;
    while c < Cols
      invariant 0 <= c <= Cols
      invariant values == done + RowValues(row[..c])
    {
      var cell := row[c];
      assert SoundCell(cell);
      RowValuesPrefix(row, c);
      if cell.isOccupied {
        values := values + [cell.value.value];
      }
      c := c + 1;
    }
    assert row[..Cols] == row;
  }

  /** A cell before the copied block that has been occupied at some time is
      skipped by the placement scan: it is still there, unchanged, and flagged. */
  lemma {:induction false} StaleSlot(g0: Grid, block: Grid, k: int)
    requires WellFormed(g0) && Rectangular(g0)
    requires 0 <= k < |g0| * Cols && !IsPristine(CellAt(g0, k))
    ensures k / Cols < |g0| && (g0 + block)[k / Cols] == g0[k / Cols] && k % Cols < |g0[k / Cols]|
    ensures g0[k / Cols][k % Cols].wasEverOccupied
  {
    assert SoundCell(g0[k / Cols][k % Cols]) by {
      assert WellFormedRow(g0[k / Cols], k / Cols);
    }
  }

  /** The slot the next copied value goes to. With `vals` copied below `g0`, index
      `|g0| * Cols + |vals|` is in the last row of the block, or one row past it when
      the block is full; appending a pristine row in that case, the slot is pristine,
      and filling it gives the block laid out from `vals + [x]`. */
  lemma {:induction false} FreshSlot(g0: Grid, vals: seq<int>, x: int, h: Grid)
    requires h == g0 + LayOut(vals, |g0|)
    ensures var k := |g0| * Cols + |vals|;
            var r, c := k / Cols, k % Cols;
            var h' := if r >= |h| then h + [PristineRow(r)] else h;
            && r <= |h| && r < |h'| && 0 <= c < |h'[r]|
            && !h'[r][c].wasEverOccupied
            && h'[r := h'[r][c := h'[r][c].(value := Some(x), isOccupied := true, wasEverOccupied := true)]]
               == g0 + LayOut(vals + [x], |g0|)
  {
    LayOutSnoc(vals, x, |g0|);
    var q, m := |vals| / Cols, |vals| % Cols;
    var k := |g0| * Cols + |vals|;
    assert k / Cols == |g0| + q && k % Cols == m;
    var a := LayOut(vals, |g0|);
    assert |a| == (|vals| + Cols - 1) / Cols;
    var ext := a + (if m == 0 then [PristineRow(|g0| + q)] else []);
    var h': Grid := if |g0| + q >= |h| then h + [PristineRow(|g0| + q)] else h;
    assert h' == g0 + ext;
    var filled := Cell(|g0| + q, m, Some(x), true, true);
    assert h'[|g0| + q][m].(value := Some(x), isOccupied := true, wasEverOccupied := true) == filled;
    assert h'[|g0| + q := h'[|g0| + q][m := filled]] == g0 + ext[q := ext[q][m := filled]];
  }
}

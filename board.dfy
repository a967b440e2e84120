/** The grid as a value: its shape invariant, the row-major list of occupied values,
    the block of rows that a deal or a replenishment lays out, vacating a cell, and the
    compaction that drops all-empty rows. The engine's methods are specified by these
    functions, and the lemmas below state what the functions guarantee. */
module Board {
  import opened GameModels

  /** Width of every row (`COLS`). */
  const Cols: int := 9

  function Min(a: int, b: int): int { if a <= b then a else b }
  function Max(a: int, b: int): int { if a >= b then a else b }

  // ---------------------------------------------------------------- shape

  predicate Rectangular(g: Grid) {
    forall r :: 0 <= r < |g| ==> |g[r]| == Cols
  }

  predicate InGrid(g: Grid, p: Point) {
    0 <= p.row < |g| && 0 <= p.col < |g[p.row]|
  }

  predicate Occupied(g: Grid, p: Point) {
    InGrid(g, p) && g[p.row][p.col].isOccupied
  }

  /** A cell's flags agree with its value: occupied exactly when it holds a value
      (vacating clears the value), an occupied cell holds 1..9 and has been occupied. */
  ghost predicate SoundCell(cell: Cell) {
    && (cell.isOccupied <==> cell.value.Some?)
    && (cell.isOccupied ==> cell.wasEverOccupied && 1 <= cell.value.value <= 9)
  }

  ghost predicate SoundRow(row: seq<Cell>) {
    |row| == Cols && forall c :: 0 <= c < Cols ==> SoundCell(row[c])
  }

  /** Row `r` has `Cols` sound cells, each recording its own position. */
  ghost predicate WellFormedRow(row: seq<Cell>, r: int) {
    SoundRow(row) && forall c :: 0 <= c < Cols ==> row[c].row == r && row[c].col == c
  }

  /** The invariant the engine keeps on its grid after every operation. */
  ghost predicate WellFormed(g: Grid) {
    forall r :: 0 <= r < |g| ==> WellFormedRow(g[r], r)
  }

  lemma {:induction false} WellFormedRectangular(g: Grid)
    requires WellFormed(g)
    ensures Rectangular(g)
  {
    forall r | 0 <= r < |g|
      ensures |g[r]| == Cols
    {
      assert WellFormedRow(g[r], r);
    }
  }

  predicate IsPristine(cell: Cell) {
    !cell.isOccupied && !cell.wasEverOccupied
  }

  /** Row-major (scan order) index of a point. */
  function Index(p: Point): int { p.row * Cols + p.col }

  /** The point at a row-major index. */
  function PointOf(k: int): Point { Point(k / Cols, k % Cols) }

  /** The cell at a row-major index, i.e. entry `k` of the flattened grid. */
  function CellAt(g: Grid, k: int): Cell
    requires Rectangular(g) && 0 <= k < |g| * Cols
  {
    g[k / Cols][k % Cols]
  }

  lemma {:induction false} IndexPointOf(k: int)
    requires 0 <= k
    ensures Index(PointOf(k)) == k && 0 <= PointOf(k).col < Cols && PointOf(k).row >= 0
  {
  }

  lemma {:induction false} PointOfIndex(p: Point)
    requires 0 <= p.col < Cols
    ensures PointOf(Index(p)) == p
  {
  }

  // ---------------------------------------------------------------- occupied values

  /** The value a cell contributes to the row-major list of occupied values. */
  function CellValue(cell: Cell): seq<int> {
    if cell.isOccupied && cell.value.Some? then [cell.value.value] else []
  }

  /** Values of the occupied cells of a row, left to right. */
  function RowValues(row: seq<Cell>): seq<int> {
    if |row| == 0 then [] else RowValues(row[..|row| - 1]) + CellValue(row[|row| - 1])
  }

  /** Values of the occupied cells of the grid in row-major order. Its length is the
      number of occupied cells. */
  function OccupiedValues(g: Grid): seq<int> {
    if |g| == 0 then [] else OccupiedValues(g[..|g| - 1]) + RowValues(g[|g| - 1])
  }

  /** One more cell of a row read left to right. */
  lemma {:induction false} RowValuesPrefix(row: seq<Cell>, c: int)
    requires 0 <= c < |row|
    ensures RowValues(row[..c + 1]) == RowValues(row[..c]) + CellValue(row[c])
  {
    assert row[..c + 1][..c] == row[..c];
  }

  /** `m` with one more occurrence of the value of `cell` when it holds one. */
  function CountCell(m: map<int, int>, cell: Cell): map<int, int> {
    if cell.isOccupied && cell.value.Some?
    then m[cell.value.value := (if cell.value.value in m then m[cell.value.value] else 0) + 1]
    else m
  }

  /** `m` updated with the occupied values of `row`, left to right. */
  function TallyRow(m: map<int, int>, row: seq<Cell>): map<int, int> {
    if |row| == 0 then m else CountCell(TallyRow(m, row[..|row| - 1]), row[|row| - 1])
  }

  /** Counting one cell into a tally is tallying its value, if any, at the end. */
  lemma {:induction false} TallyCell(seen: seq<int>, cell: Cell)
    ensures Tally(seen + CellValue(cell)) == CountCell(Tally(seen), cell)
  {
    if cell.isOccupied && cell.value.Some? {
      TallySnoc(seen, cell.value.value);
    } else {
      assert seen + CellValue(cell) == seen;
    }
  }

  /** Folding a row into the tally of `done` gives the tally of `done` followed by
      the row's occupied values. */
  lemma {:induction false} TallyRowMeaning(done: seq<int>, row: seq<Cell>)
    ensures TallyRow(Tally(done), row) == Tally(done + RowValues(row))
    decreases |row|
  {
    if |row| > 0 {
      var n := |row| - 1;
      var front := row[..n];
      TallyRowMeaning(done, front);
      var seen := done + RowValues(front);
      TallyCell(seen, row[n]);
      assert RowValues(row) == RowValues(front) + CellValue(row[n]);
      assert done + RowValues(row) == seen + CellValue(row[n]);
    } else {
      assert done + RowValues(row) == done;
    }
  }

  /** One more cell of a row folded into the tally. */
  lemma {:induction false} TallyRowPrefix(m: map<int, int>, row: seq<Cell>, c: int)
    requires 0 <= c < |row|
    ensures TallyRow(m, row[..c + 1]) == CountCell(TallyRow(m, row[..c]), row[c])
  {
    assert row[..c + 1][..c] == row[..c];
  }

  /** One more row of a grid read top to bottom. */
  lemma {:induction false} OccupiedValuesPrefix(g: Grid, r: int)
    requires 0 <= r < |g|
    ensures OccupiedValues(g[..r + 1]) == OccupiedValues(g[..r]) + RowValues(g[r])
  {
    assert g[..r + 1][..r] == g[..r];
  }

  /** Cell holds the tile value `v`. */
  predicate Holds(cell: Cell, v: int) {
    cell.isOccupied && cell.value == Some(v)
  }

  lemma {:induction false} RowValuesAppend(a: seq<Cell>, b: seq<Cell>)
    ensures RowValues(a + b) == RowValues(a) + RowValues(b)
    decreases |b|
  {
    if |b| == 0 {
      assert a + b == a;
    } else {
      var b' := b[..|b| - 1];
      var last := b[|b| - 1];
      assert (a + b)[..|a + b| - 1] == a + b' && (a + b)[|a + b| - 1] == last;
      RowValuesAppend(a, b');
      calc {
        RowValues(a + b);
        RowValues(a + b') + CellValue(last);
        RowValues(a) + RowValues(b') + CellValue(last);
        RowValues(a) + (RowValues(b') + CellValue(last));
        RowValues(a) + RowValues(b);
      }
    }
  }

  lemma {:induction false} OccupiedValuesAppend(a: Grid, b: Grid)
    ensures OccupiedValues(a + b) == OccupiedValues(a) + OccupiedValues(b)
    decreases |b|
  {
    if |b| == 0 {
      assert a + b == a;
    } else {
      var b' := b[..|b| - 1];
      var last := b[|b| - 1];
      assert (a + b)[..|a + b| - 1] == a + b' && (a + b)[|a + b| - 1] == last;
      OccupiedValuesAppend(a, b');
      calc {
        OccupiedValues(a + b);
        OccupiedValues(a + b') + RowValues(last);
        OccupiedValues(a) + OccupiedValues(b') + RowValues(last);
        OccupiedValues(a) + (OccupiedValues(b') + RowValues(last));
        OccupiedValues(a) + OccupiedValues(b);
      }
    }
  }

  /** A row whose first |vs| cells hold vs and whose other cells are unoccupied
      contributes exactly vs. */
  lemma {:induction false} RowValuesOfFilled(row: seq<Cell>, vs: seq<int>)
    requires |vs| <= |row|
    requires forall c :: 0 <= c < |vs| ==> Holds(row[c], vs[c])
    requires forall c :: |vs| <= c < |row| ==> !row[c].isOccupied
    ensures RowValues(row) == vs
    decreases |row|
  {
    if |row| > 0 {
      var n := |row| - 1;
      if |vs| == |row| {
        RowValuesOfFilled(row[..n], vs[..n]);
        assert vs[..n] + [vs[n]] == vs;
      } else {
        RowValuesOfFilled(row[..n], vs);
      }
    }
  }

  /** Rows that agree cell by cell on occupancy and value contribute the same values. */
  lemma {:induction false} RowValuesCongruent(a: seq<Cell>, b: seq<Cell>)
    requires |a| == |b|
    requires forall c :: 0 <= c < |a| ==> a[c].isOccupied == b[c].isOccupied && a[c].value == b[c].value
    ensures RowValues(a) == RowValues(b)
    decreases |a|
  {
    if |a| > 0 {
      RowValuesCongruent(a[..|a| - 1], b[..|b| - 1]);
    }
  }

  lemma {:induction false} RowHeldIff(row: seq<Cell>, v: int)
    ensures v in RowValues(row) <==> exists c :: 0 <= c < |row| && Holds(row[c], v)
    decreases |row|
  {
    if |row| > 0 {
      var n := |row| - 1;
      RowHeldIff(row[..n], v);
      if v in RowValues(row[..n]) {
        var c :| 0 <= c < n && Holds(row[..n][c], v);
        assert Holds(row[c], v);
      }
      if exists c :: 0 <= c < |row| && Holds(row[c], v) {
        var c :| 0 <= c < |row| && Holds(row[c], v);
        if c < n {
          assert Holds(row[..n][c], v);
        }
      }
    }
  }

  /** `v` is among the occupied values exactly when some occupied cell holds `v`. */
  lemma {:induction false} ValueHeldIff(g: Grid, v: int)
    ensures v in OccupiedValues(g) <==> exists r, c :: 0 <= r < |g| && 0 <= c < |g[r]| && Holds(g[r][c], v)
    decreases |g|
  {
    if |g| > 0 {
      var n := |g| - 1;
      ValueHeldIff(g[..n], v);
      RowHeldIff(g[n], v);
      if v in OccupiedValues(g[..n]) {
        var r, c :| 0 <= r < n && 0 <= c < |g[..n][r]| && Holds(g[..n][r][c], v);
        assert Holds(g[r][c], v);
      }
      if v in RowValues(g[n]) {
        var c :| 0 <= c < |g[n]| && Holds(g[n][c], v);
        assert Holds(g[n][c], v);
      }
      if exists r, c :: 0 <= r < |g| && 0 <= c < |g[r]| && Holds(g[r][c], v) {
        var r, c :| 0 <= r < |g| && 0 <= c < |g[r]| && Holds(g[r][c], v);
        if r < n {
          assert Holds(g[..n][r][c], v);
        }
      }
    }
  }

  /** Every occupied value of a well-formed grid is a tile value 1..9. */
  lemma {:induction false} OccupiedValuesInRange(g: Grid)
    requires WellFormed(g)
    ensures forall k :: 0 <= k < |OccupiedValues(g)| ==> 1 <= OccupiedValues(g)[k] <= 9
  {
    forall k | 0 <= k < |OccupiedValues(g)|
      ensures 1 <= OccupiedValues(g)[k] <= 9
    {
      var v := OccupiedValues(g)[k];
      ValueHeldIff(g, v);
      var r, c :| 0 <= r < |g| && 0 <= c < |g[r]| && Holds(g[r][c], v);
      assert SoundCell(g[r][c]);
    }
  }

  // ---------------------------------------------------------------- win and cleared numbers

  /** No cell of the grid is occupied (`checkWin`). */
  predicate AllVacant(g: Grid) {
    forall r, c :: 0 <= r < |g| && 0 <= c < |g[r]| ==> !g[r][c].isOccupied
  }

  /** A well-formed grid is cleared exactly when its list of occupied values is empty. */
  lemma {:induction false} AllVacantIffNoValues(g: Grid)
    requires WellFormed(g)
    ensures AllVacant(g) <==> OccupiedValues(g) == []
  {
    if OccupiedValues(g) != [] {
      var v := OccupiedValues(g)[0];
      ValueHeldIff(g, v);
    }
    if !AllVacant(g) {
      var r, c :| 0 <= r < |g| && 0 <= c < |g[r]| && g[r][c].isOccupied;
      assert SoundCell(g[r][c]);
      ValueHeldIff(g, g[r][c].value.value);
    }
  }

  /** How many times each value occurs in `s`; values that do not occur have no entry. */
  function Tally(s: seq<int>): map<int, int> {
    if |s| == 0 then map[]
    else
      var m, x := Tally(s[..|s| - 1]), s[|s| - 1];
      m[x := (if x in m then m[x] else 0) + 1]
  }

  lemma {:induction false} TallySnoc(s: seq<int>, x: int)
    ensures Tally(s + [x]) == Tally(s)[x := (if x in Tally(s) then Tally(s)[x] else 0) + 1]
  {
    assert (s + [x])[..|s|] == s;
  }

  lemma {:induction false} TallyMeaning(s: seq<int>)
    ensures forall v :: v in Tally(s) <==> v in s
    ensures forall v :: v in Tally(s) ==> Tally(s)[v] == multiset(s)[v] >= 1
    decreases |s|
  {
    if |s| > 0 {
      var front := s[..|s| - 1];
      TallyMeaning(front);
      assert s == front + [s[|s| - 1]];
    }
  }

  /** The `numbersCleared` flags: 1 for a tile value held by no occupied cell, else 0. */
  function ClearedFlags(g: Grid): map<int, int> {
    map v | 1 <= v <= 9 :: if v in OccupiedValues(g) then 0 else 1
  }

  /** A table holding, for each value 1..9, 0 when the tally of the occupied values
      has an entry for it and 1 otherwise, is the table of cleared flags. */
  lemma {:induction false} ClearedFlagsFromTally(g: Grid, m: map<int, int>)
    requires forall v :: v in m <==> 1 <= v <= 9
    requires forall v :: 1 <= v <= 9 ==> m[v] == if v in Tally(OccupiedValues(g)) then 0 else 1
    ensures m == ClearedFlags(g)
  {
    TallyMeaning(OccupiedValues(g));
    assert m.Keys == ClearedFlags(g).Keys;
  }

  /** The flag of value `v` is 1 exactly when no occupied cell anywhere holds `v`. */
  lemma {:induction false} ClearedFlagsMeaning(g: Grid, v: int)
    requires 1 <= v <= 9
    ensures v in ClearedFlags(g)
    ensures ClearedFlags(g)[v] == 1 <==> forall r, c :: 0 <= r < |g| && 0 <= c < |g[r]| ==> !Holds(g[r][c], v)
    ensures ClearedFlags(g)[v] == 0 || ClearedFlags(g)[v] == 1
  {
    ValueHeldIff(g, v);
  }

  // ---------------------------------------------------------------- laying out values

  /** The cell at column `c` of row `r` when the cell is slot `k` of a block laid out
      from `vals`: occupied with `vals[k]` if there is one, pristine otherwise. */
  function LaidCell(vals: seq<int>, r: int, c: int, k: nat): Cell {
    if k < |vals| then Cell(r, c, Some(vals[k]), true, true) else Cell(r, c, None, false, false)
  }

  /** `vals` laid out in row-major order in rows numbered from `firstRow`, the last
      row padded with pristine cells. The deal is `LayOut(deal, 0)`; a replenishment
      appends `LayOut(values, |grid|)`. */
  function LayOut(vals: seq<int>, firstRow: int): Grid {
    var n := (|vals| + Cols - 1) / Cols;
    seq(n, i requires 0 <= i < n => seq(Cols, c requires 0 <= c < Cols => LaidCell(vals, firstRow + i, c, i * Cols + c)))
  }

  lemma {:induction false} LayOutCell(vals: seq<int>, firstRow: int, i: int, c: int)
    requires 0 <= i < |LayOut(vals, firstRow)| && 0 <= c < Cols
    ensures |LayOut(vals, firstRow)[i]| == Cols
    ensures LayOut(vals, firstRow)[i][c] == LaidCell(vals, firstRow + i, c, i * Cols + c)
  {
  }

  function PristineRow(r: int): seq<Cell> {
    seq(Cols, c => Cell(r, c, None, false, false))
  }

  /** All rows of a lay-out but the last are the lay-out of the values they hold. */
  lemma {:induction false} LayOutFront(vals: seq<int>, firstRow: int)
    requires |vals| > 0
    ensures var n := |LayOut(vals, firstRow)|;
            var m := (n - 1) * Cols;
            && n > 0 && 0 <= m < |vals| <= m + Cols
            && LayOut(vals, firstRow)[..n - 1] == LayOut(vals[..m], firstRow)
  {
    var g: Grid := LayOut(vals, firstRow);
    var n := |g|;
    var m := (n - 1) * Cols;
    assert m < |vals| <= m + Cols;
    var front := vals[..m];
    var h := LayOut(front, firstRow);
    assert |h| == n - 1;
    forall i | 0 <= i < n - 1
      ensures g[i] == h[i]
    {
      LayOutCell(vals, firstRow, i, 0);
      LayOutCell(front, firstRow, i, 0);
      forall c: int | 0 <= c < Cols
        ensures g[i][c] == h[i][c]
      {
        LayOutCell(vals, firstRow, i, c);
        LayOutCell(front, firstRow, i, c);
        assert i * Cols + c < m;
      }
    }
  }

  /** The last row of a lay-out holds the values after the full rows. */
  lemma {:induction false} LayOutLastRow(vals: seq<int>, firstRow: int)
    requires |vals| > 0
    ensures var n := |LayOut(vals, firstRow)|;
            var m := (n - 1) * Cols;
            && n > 0 && 0 <= m <= |vals|
            && RowValues(LayOut(vals, firstRow)[n - 1]) == vals[m..]
  {
    var g: Grid := LayOut(vals, firstRow);
    var n := |g|;
    var m := (n - 1) * Cols;
    assert m < |vals| <= m + Cols;
    var last := vals[m..];
    var row := g[n - 1];
    LayOutCell(vals, firstRow, n - 1, 0);
    forall c: int | 0 <= c < Cols
      ensures c < |last| ==> Holds(row[c], last[c])
      ensures c >= |last| ==> !row[c].isOccupied
    {
      LayOutCell(vals, firstRow, n - 1, c);
      assert (n - 1) * Cols + c == m + c;
    }
    RowValuesOfFilled(row, last);
  }

  /** Reading a lay-out back in row-major order gives the values laid out. */
  lemma {:induction false} LayOutValues(vals: seq<int>, firstRow: int)
    ensures OccupiedValues(LayOut(vals, firstRow)) == vals
    decreases |vals|
  {
    if |vals| > 0 {
      var g: Grid := LayOut(vals, firstRow);
      var n := |g|;
      var m := (n - 1) * Cols;
      LayOutFront(vals, firstRow);
      LayOutLastRow(vals, firstRow);
      LayOutValues(vals[..m], firstRow);
      assert OccupiedValues(g) == OccupiedValues(g[..n - 1]) + RowValues(g[n - 1]);
      assert vals == vals[..m] + vals[m..];
    } else {
      assert LayOut(vals, firstRow) == [];
    }
  }

  lemma {:induction false} LayOutWellFormed(vals: seq<int>, firstRow: int)
    requires forall k :: 0 <= k < |vals| ==> 1 <= vals[k] <= 9
    ensures forall i :: 0 <= i < |LayOut(vals, firstRow)| ==> WellFormedRow(LayOut(vals, firstRow)[i], firstRow + i)
  {
    var g: Grid := LayOut(vals, firstRow);
    forall i | 0 <= i < |g|
      ensures WellFormedRow(g[i], firstRow + i)
    {
      LayOutCell(vals, firstRow, i, 0);
      forall c: int | 0 <= c < Cols
        ensures SoundCell(g[i][c]) && g[i][c].row == firstRow + i && g[i][c].col == c
      {
        LayOutCell(vals, firstRow, i, c);
      }
    }
  }

  /** Appending a block laid out from tile values keeps a grid well-formed. */
  lemma {:induction false} AppendLayOutWellFormed(g: Grid, vals: seq<int>)
    requires WellFormed(g)
    requires forall k :: 0 <= k < |vals| ==> 1 <= vals[k] <= 9
    ensures WellFormed(g + LayOut(vals, |g|)) && Rectangular(g + LayOut(vals, |g|))
  {
    LayOutWellFormed(vals, |g|);
    var h := g + LayOut(vals, |g|);
    forall r | 0 <= r < |h|
      ensures WellFormedRow(h[r], r)
    {
      if r < |g| {
        assert h[r] == g[r];
      } else {
        assert h[r] == LayOut(vals, |g|)[r - |g|];
      }
    }
    WellFormedRectangular(h);
  }

  /** Laying out one more value fills the next slot: row |vals|/Cols, column
      |vals|%Cols, of the block grown by a pristine row when the block was full. */
  lemma {:induction false} LayOutSnoc(vals: seq<int>, x: int, firstRow: int)
    ensures var q, m := |vals| / Cols, |vals| % Cols;
            var grown := LayOut(vals, firstRow) + (if m == 0 then [PristineRow(firstRow + q)] else []);
            && |grown| == q + 1 && |grown[q]| == Cols
            && grown[q][m] == Cell(firstRow + q, m, None, false, false)
            && LayOut(vals + [x], firstRow) == grown[q := grown[q][m := Cell(firstRow + q, m, Some(x), true, true)]]
  {
    var q, m := |vals| / Cols, |vals| % Cols;
    var a := LayOut(vals, firstRow);
    var grown := a + (if m == 0 then [PristineRow(firstRow + q)] else []);
    var s := vals + [x];
    var b := LayOut(s, firstRow);
    assert |a| == (if m == 0 then q else q + 1);
    if m != 0 {
      LayOutCell(vals, firstRow, q, m);
    }
    var target := grown[q := grown[q][m := Cell(firstRow + q, m, Some(x), true, true)]];
    assert |b| == q + 1;
    forall i | 0 <= i < q + 1
      ensures b[i] == target[i]
    {
      LayOutCell(s, firstRow, i, 0);
      forall c: int | 0 <= c < Cols
        ensures b[i][c] == target[i][c]
      {
        LayOutCell(s, firstRow, i, c);
        if i < |a| {
          LayOutCell(vals, firstRow, i, c);
        }
        var k := i * Cols + c;
        if k < |vals| {
          assert s[k] == vals[k];
          assert i < |a|;
        } else if k == |vals| {
          assert i == q && c == m;
        } else {
          assert !(i == q && c == m);
        }
      }
    }
  }

  // ---------------------------------------------------------------- vacating and compaction

  /** The grid with the cell at `p` vacated: unoccupied and without a value. */
  function Vacated(g: Grid, p: Point): (h: Grid)
    requires InGrid(g, p)
  {
    g[p.row := g[p.row][p.col := g[p.row][p.col].(isOccupied := false, value := None)]]
  }

  /** Vacating a cell keeps the grid well-formed. */
  lemma {:induction false} VacatedWellFormed(g: Grid, p: Point)
    requires WellFormed(g) && InGrid(g, p)
    ensures WellFormed(Vacated(g, p)) && |Vacated(g, p)| == |g|
  {
    var h := Vacated(g, p);
    forall r | 0 <= r < |h|
      ensures WellFormedRow(h[r], r)
    {
      assert WellFormedRow(g[r], r);
      if r == p.row {
        forall c | 0 <= c < Cols
          ensures SoundCell(h[r][c]) && h[r][c].row == r && h[r][c].col == c
        {
          assert SoundCell(g[r][c]);
        }
      }
    }
  }

  lemma {:induction false} RowValuesSplit(row: seq<Cell>, c: int)
    requires 0 <= c < |row|
    ensures RowValues(row) == RowValues(row[..c]) + CellValue(row[c]) + RowValues(row[c + 1..])
  {
    assert row == row[..c] + [row[c]] + row[c + 1..];
    RowValuesAppend(row[..c] + [row[c]], row[c + 1..]);
    RowValuesAppend(row[..c], [row[c]]);
    assert RowValues([row[c]]) == RowValues([]) + CellValue(row[c]);
  }

  lemma {:induction false} OccupiedValuesSplit(g: Grid, r: int)
    requires 0 <= r < |g|
    ensures OccupiedValues(g) == OccupiedValues(g[..r]) + RowValues(g[r]) + OccupiedValues(g[r + 1..])
  {
    assert g == g[..r] + [g[r]] + g[r + 1..];
    OccupiedValuesAppend(g[..r] + [g[r]], g[r + 1..]);
    OccupiedValuesAppend(g[..r], [g[r]]);
    assert OccupiedValues([g[r]]) == OccupiedValues([]) + RowValues(g[r]);
  }

  /** Vacating an occupied cell removes exactly one occupied value. */
  lemma {:induction false} VacatedCount(g: Grid, p: Point)
    requires InGrid(g, p)
    ensures |OccupiedValues(Vacated(g, p))| == |OccupiedValues(g)| - (if Occupied(g, p) && g[p.row][p.col].value.Some? then 1 else 0)
  {
    var h := Vacated(g, p);
    var r, c := p.row, p.col;
    OccupiedValuesSplit(g, r);
    OccupiedValuesSplit(h, r);
    assert h[..r] == g[..r] && h[r + 1..] == g[r + 1..];
    RowValuesSplit(g[r], c);
    RowValuesSplit(h[r], c);
    assert h[r][..c] == g[r][..c] && h[r][c + 1..] == g[r][c + 1..];
  }

  /** Removing a matched pair of distinct occupied cells removes exactly two occupied
      values. */
  lemma {:induction false} RemovePairCount(g: Grid, p1: Point, p2: Point)
    requires WellFormed(g) && p1 != p2 && Occupied(g, p1) && Occupied(g, p2)
    ensures InGrid(Vacated(g, p1), p2)
    ensures |OccupiedValues(Vacated(Vacated(g, p1), p2))| == |OccupiedValues(g)| - 2
  {
    assert SoundCell(g[p1.row][p1.col]) && SoundCell(g[p2.row][p2.col]);
    VacatedCount(g, p1);
    VacatedCount(Vacated(g, p1), p2);
  }

  /** Every cell of the row is unoccupied (`row.every(cell => !cell.isOccupied)`). */
  predicate IsEmptyRow(row: seq<Cell>) {
    forall c :: 0 <= c < |row| ==> !row[c].isOccupied
  }

  /** The rows of `g` that are not all-empty, in their original order. */
  function KeepNonEmpty(g: Grid): Grid {
    if |g| == 0 then []
    else KeepNonEmpty(g[..|g| - 1]) + (if IsEmptyRow(g[|g| - 1]) then [] else [g[|g| - 1]])
  }

  /** The indices of the all-empty rows of `g` from `lo` on, largest first (the
      order a bottom-up scan meets them). */
  function EmptyRowIndices(g: Grid, lo: int): seq<int>
    requires 0 <= lo <= |g|
    decreases |g| - lo
  {
    if lo == |g| then [] else EmptyRowIndices(g, lo + 1) + (if IsEmptyRow(g[lo]) then [lo] else [])
  }

  /** The list holds exactly the empty rows at or after `lo`, in strictly
      decreasing order. */
  lemma {:induction false} EmptyRowIndicesFacts(g: Grid, lo: int)
    requires 0 <= lo <= |g|
    ensures forall k :: k in EmptyRowIndices(g, lo) <==> lo <= k < |g| && IsEmptyRow(g[k])
    ensures forall a, b :: 0 <= a < b < |EmptyRowIndices(g, lo)| ==> EmptyRowIndices(g, lo)[a] > EmptyRowIndices(g, lo)[b]
    decreases |g| - lo
  {
    if lo < |g| {
      EmptyRowIndicesFacts(g, lo + 1);
      var rest := EmptyRowIndices(g, lo + 1);
      forall a | 0 <= a < |rest|
        ensures rest[a] > lo
      {
        assert rest[a] in rest;
      }
    }
  }

  /** Every cell's row/col fields set to its position. */
  function Renumbered(g: Grid): Grid {
    seq(|g|, r requires 0 <= r < |g| => seq(|g[r]|, c requires 0 <= c < |g[r]| => g[r][c].(row := r, col := c)))
  }

  /** The grid after `checkAndRemoveEmptyRows`. */
  function Compacted(g: Grid): Grid {
    Renumbered(KeepNonEmpty(g))
  }

  lemma {:induction false} KeepNonEmptyAppend(a: Grid, b: Grid)
    ensures KeepNonEmpty(a + b) == KeepNonEmpty(a) + KeepNonEmpty(b)
    decreases |b|
  {
    if |b| == 0 {
      assert a + b == a;
    } else {
      var b' := b[..|b| - 1];
      assert (a + b)[..|a + b| - 1] == a + b';
      KeepNonEmptyAppend(a, b');
    }
  }

  /** Filtering a grid whose first row is `x`: `x` survives exactly when it is not empty. */
  lemma {:induction false} KeepNonEmptyCons(x: seq<Cell>, g: Grid)
    ensures KeepNonEmpty([x] + g) == (if IsEmptyRow(x) then [] else [x]) + KeepNonEmpty(g)
  {
    KeepNonEmptyAppend([x], g);
    assert [x][..0] == [];
  }

  lemma {:induction false} KeepNonEmptyNoEmptyRows(g: Grid)
    ensures forall i :: 0 <= i < |KeepNonEmpty(g)| ==> !IsEmptyRow(KeepNonEmpty(g)[i])
    decreases |g|
  {
    if |g| > 0 {
      KeepNonEmptyNoEmptyRows(g[..|g| - 1]);
    }
  }

  lemma {:induction false} KeepNonEmptySound(g: Grid)
    requires forall r :: 0 <= r < |g| ==> SoundRow(g[r])
    ensures forall i :: 0 <= i < |KeepNonEmpty(g)| ==> SoundRow(KeepNonEmpty(g)[i])
    decreases |g|
  {
    if |g| > 0 {
      var front := g[..|g| - 1];
      assert forall r :: 0 <= r < |front| ==> front[r] == g[r];
      KeepNonEmptySound(front);
    }
  }

  lemma {:induction false} KeepNonEmptyValues(g: Grid)
    ensures OccupiedValues(KeepNonEmpty(g)) == OccupiedValues(g)
    decreases |g|
  {
    if |g| > 0 {
      var n := |g| - 1;
      var front := g[..n];
      KeepNonEmptyValues(front);
      var tail := if IsEmptyRow(g[n]) then [] else [g[n]];
      OccupiedValuesAppend(KeepNonEmpty(front), tail);
      if IsEmptyRow(g[n]) {
        RowValuesOfFilled(g[n], []);
      } else {
        assert OccupiedValues(tail) == OccupiedValues([]) + RowValues(g[n]);
      }
    }
  }

  lemma {:induction false} RenumberedValues(g: Grid)
    ensures OccupiedValues(Renumbered(g)) == OccupiedValues(g)
    decreases |g|
  {
    if |g| > 0 {
      var n := |g| - 1;
      assert Renumbered(g)[..n] == Renumbered(g[..n]);
      RenumberedValues(g[..n]);
      RowValuesCongruent(Renumbered(g)[n], g[n]);
    }
  }

  /** Compaction leaves no all-empty row. */
  lemma {:induction false} CompactedNoEmptyRows(g: Grid)
    ensures forall i :: 0 <= i < |Compacted(g)| ==> !IsEmptyRow(Compacted(g)[i])
  {
    var k: Grid := KeepNonEmpty(g);
    KeepNonEmptyNoEmptyRows(g);
    forall i: int | 0 <= i < |Compacted(g)|
      ensures !IsEmptyRow(Compacted(g)[i])
    {
      RenumberedCell(k, i, 0);
      assert !IsEmptyRow(k[i]);
      var c: int :| 0 <= c < |k[i]| && k[i][c].isOccupied;
      RenumberedCell(k, i, c);
      assert Compacted(g)[i][c].isOccupied;
    }
  }

  /** Compaction keeps a well-formed grid well-formed, the surviving rows renumbered. */
  lemma {:induction false} CompactedWellFormed(g: Grid)
    requires WellFormed(g)
    ensures WellFormed(Compacted(g)) && Rectangular(Compacted(g))
  {
    var k: Grid := KeepNonEmpty(g);
    assert forall r :: 0 <= r < |g| ==> SoundRow(g[r]);
    KeepNonEmptySound(g);
    forall i: int | 0 <= i < |Compacted(g)|
      ensures WellFormedRow(Compacted(g)[i], i)
    {
      RenumberedCell(k, i, 0);
      assert SoundRow(k[i]);
      forall c | 0 <= c < Cols ensures SoundCell(Compacted(g)[i][c]) {
        RenumberedCell(k, i, c);
        assert SoundCell(k[i][c]);
      }
    }
    WellFormedRectangular(Compacted(g));
  }

  /** Compaction leaves no all-empty row, keeps the grid well-formed (the surviving
      rows renumbered) and keeps the row-major list of occupied values, so the number
      of occupied cells is unchanged. */
  lemma {:induction false} CompactedFacts(g: Grid)
    ensures forall i :: 0 <= i < |Compacted(g)| ==> !IsEmptyRow(Compacted(g)[i])
    ensures OccupiedValues(Compacted(g)) == OccupiedValues(g)
    ensures WellFormed(g) ==> WellFormed(Compacted(g)) && Rectangular(Compacted(g))
  {
    CompactedNoEmptyRows(g);
    KeepNonEmptyValues(g);
    RenumberedValues(KeepNonEmpty(g));
    if WellFormed(g) {
      CompactedWellFormed(g);
    }
  }

  /** The shape of a renumbered grid, and each of its cells. */
  lemma {:induction false} RenumberedCell(g: Grid, r: int, c: int)
    requires 0 <= r < |g|
    ensures |Renumbered(g)| == |g| && |Renumbered(g)[r]| == |g[r]|
    ensures 0 <= c < |g[r]| ==> Renumbered(g)[r][c] == g[r][c].(row := r, col := c)
  {
  }

  /** One bottom-up step of dropping empty rows: with the rows below `r` already
      filtered, removing row `r` when it is empty (keeping it otherwise) gives the
      rows above `r` followed by the filtered rows from `r` down. */
  lemma {:induction false} KeepNonEmptyStep(g: Grid, r: int)
    requires 0 <= r < |g|
    ensures var cur := g[..r + 1] + KeepNonEmpty(g[r + 1..]);
      && cur[r] == g[r]
      && (IsEmptyRow(g[r]) ==> cur[..r] + cur[r + 1..] == g[..r] + KeepNonEmpty(g[r..]))
      && (!IsEmptyRow(g[r]) ==> cur == g[..r] + KeepNonEmpty(g[r..]))
  {
    var rest := KeepNonEmpty(g[r + 1..]);
    var cur := g[..r + 1] + rest;
    assert g[r..] == [g[r]] + g[r + 1..];
    KeepNonEmptyCons(g[r], g[r + 1..]);
    if IsEmptyRow(g[r]) {
      assert cur[..r] == g[..r];
      assert cur[r + 1..] == rest;
    } else {
      assert g[..r + 1] == g[..r] + [g[r]];
    }
  }

  /** Compaction does not change which tile values are still on the board. */
  lemma {:induction false} CompactedClearedFlags(g: Grid)
    ensures ClearedFlags(Compacted(g)) == ClearedFlags(g)
  {
    CompactedFacts(g);
  }
}

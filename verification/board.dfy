/** The state of src/state/sudoku.ts: cells, the game that owns them, the
    game constructor, `toString`, and the cell-level actions that do not
    depend on candidates (`setValue`, `resetPossibles`, `reset`).

    A cell is identified by its index in the game's cell list; its `groups`
    are `CellGroups(k, index)` and its readable name `ReadableName(size, index)`. */
module Board {
  import opened Wrappers
  import opened Collections
  import opened Strings
  import opened Geometry
  import opened SudokuUtils
  import opened Types

  /** `value` is the cell's `__value` (`undefined` is `None`), `source` the
      method that last set it, `blocks` its `blockStrategyItems`. */
  datatype Cell = Cell(value: Option<int>, source: Option<GameMethod>, blocks: seq<Move>)

  /** A game of box width `k`: `k * k` rows, columns and boxes of `k * k`
      cells each.  `strategy` is the list of pending strategy items. */
  datatype Game = Game(k: nat, cells: seq<Cell>, strategy: seq<Move>)

  const EmptyCell := Cell(None, None, [])

  /** The cell list has exactly the `k`-th board's length. */
  predicate WellFormed(g: Game)
  {
    |g.cells| == Pow4(g.k)
  }

  /** What every reachable game keeps: a cell has a value exactly when it has
      a source, and it only holds block items. */
  predicate Consistent(g: Game)
  {
    forall i :: 0 <= i < |g.cells| ==> CellConsistent(g.cells[i])
  }

  predicate CellConsistent(c: Cell)
  {
    (c.value.Some? <==> c.source.Some?) && forall m :: m in c.blocks ==> m.Block?
  }

  /** `size`: the square root of the number of cells. */
  function Size(g: Game): (r: nat)
    ensures WellFormed(g) ==> r * r == |g.cells|
  {
    g.k * g.k
  }

  /** `squareSize`: the square root of `size`. */
  function SquareSize(g: Game): (r: nat)
    ensures r * r == Size(g)
  {
    g.k
  }

  /** `isValidGame`: the square root of the square root of the cell count is
      whole. */
  predicate IsValidGame(g: Game)
  {
    IsFourthPower(|g.cells|)
  }

  lemma WellFormedIsValidGame(g: Game)
    requires WellFormed(g)
    ensures IsValidGame(g)
  {
    assert Pow4(g.k) == |g.cells|;
  }

  /** `possibleValues`: `range(1, size + 1)`. */
  function PossibleValues(g: Game): (r: seq<int>)
    ensures |r| == Size(g)
    ensures forall v :: v in r <==> 1 <= v <= Size(g)
    ensures forall i, j :: 0 <= i < j < |r| ==> r[i] < r[j]
  {
    RangeMembers(1, Size(g) + 1);
    Range(1, Size(g) + 1)
  }

  /** JavaScript truthiness of a cell value: `undefined` and `0` are falsy. */
  predicate Truthy(v: Option<int>)
  {
    v.Some? && v.value != 0
  }

  /** The value of the cell at `i`; indices off the board hold nothing. */
  function ValueAt(g: Game, i: nat): Option<int>
  {
    if i < |g.cells| then g.cells[i].value else None
  }

  predicate HasValue(c: Cell)
  {
    c.value.Some?
  }

  /** `isEmptyGame`: no cell has a value. */
  function IsEmptyGame(g: Game): (r: bool)
    ensures r <==> forall i :: 0 <= i < |g.cells| ==> g.cells[i].value.None?
  {
    var valued := Filter(g.cells, HasValue);
    assert forall i :: 0 <= i < |g.cells| && g.cells[i].value.Some? ==> g.cells[i] in valued;
    assert |valued| > 0 ==> valued[0] in g.cells;
    |valued| == 0
  }

  /** The text `toString` writes for one cell: its value, or `0` when the
      value is falsy. */
  function CellText(c: Cell): string
  {
    IntToString(if Truthy(c.value) then c.value.value else 0)
  }

  /** `toString`: the cells' texts joined with the empty separator. */
  function ToString(g: Game): string
  {
    Join(seq(|g.cells|, i requires 0 <= i < |g.cells| => CellText(g.cells[i])), "")
  }

  /** Joining one-character strings with the empty separator concatenates
      the characters. */
  lemma {:induction false} JoinCharacters(xs: seq<string>)
    requires forall i :: 0 <= i < |xs| ==> |xs[i]| == 1
    ensures |Join(xs, "")| == |xs|
    ensures forall i :: 0 <= i < |xs| ==> Join(xs, "")[i] == xs[i][0]
  {
    if |xs| > 1 {
      JoinCharacters(xs[1..]);
      assert Join(xs, "") == xs[0] + Join(xs[1..], "");
    }
  }

  /* -------------------------------- Cell actions -------------------------------- */

  datatype ActionError =
    | StaticCell
    | BlockingImpossible
    | BlockingValuedCell

  /** `setValue(v, strategyItem)`: an initial-game cell refuses; `0` or
      `undefined` clears the value and the source; any other value is stored
      with the item's method as its source (`Unknown` without an item). */
  function SetCellValue(c: Cell, v: Option<int>, via: Option<GameMethod>): (r: Result<Cell, ActionError>)
    ensures r.Err? <==> c.source == Some(InitialGame)
    ensures r.Err? ==> r.error == StaticCell
    ensures r.Ok? ==> r.value.blocks == c.blocks && CellConsistent(r.value) == CellConsistent(c.(value := None, source := None))
    ensures r.Ok? && !Truthy(v) ==> r.value.value.None? && r.value.source.None?
    ensures r.Ok? && Truthy(v) ==> r.value.value == v && r.value.source == Some(if via.Some? then via.value else Unknown)
  {
    if c.source == Some(InitialGame) then Err(StaticCell)
    else if v == None || v == Some(0) then Ok(c.(value := None, source := None))
    else Ok(c.(value := v, source := Some(if via.Some? then via.value else Unknown)))
  }

  /** Setting a value by any method but the initial game and then clearing
      it leaves the cell without a value, whatever was set. */
  lemma SetThenClear(c: Cell, v: Option<int>, via: Option<GameMethod>)
    requires SetCellValue(c, v, via).Ok? && via != Some(InitialGame)
    ensures var d := SetCellValue(c, v, via).value;
      SetCellValue(d, None, None) == Ok(c.(value := None, source := None))
  {
  }

  /** The cell's `resetPossibles`: a non-initial cell forgets its block items. */
  function ResetCellPossibles(c: Cell): (r: Cell)
    ensures r.value == c.value && r.source == c.source
    ensures c.source == Some(InitialGame) ==> r == c
    ensures c.source != Some(InitialGame) ==> r.blocks == []
  {
    if c.source != Some(InitialGame) then c.(blocks := []) else c
  }

  /** The cell's `reset`: a non-initial cell loses its value, its source and
      its block items; an initial-game cell is untouched. */
  function ResetCell(c: Cell): (r: Cell)
    ensures c.source == Some(InitialGame) ==> r == c
    ensures c.source != Some(InitialGame) ==> r == EmptyCell
  {
    if c.source != Some(InitialGame) then
      var cleared := SetCellValue(c, None, None);
      ResetCellPossibles(cleared.value)
    else c
  }

  lemma ResetCellIdempotent(c: Cell)
    ensures ResetCell(ResetCell(c)) == ResetCell(c)
  {
  }

  /* -------------------------------- Construction -------------------------------- */

  /** The `Cell` constructor: `setValue` of the given datum with the initial
      game as its method, on a cell that has no source yet. */
  function NewCell(d: int): (c: Cell)
    ensures CellConsistent(c) && c.blocks == []
    ensures d == 0 <==> c.value.None?
    ensures d != 0 ==> c.value == Some(d) && c.source == Some(InitialGame)
  {
    SetCellValue(EmptyCell, Some(d), Some(InitialGame)).value
  }

  /** The `Game` constructor on a board whose length is a fourth power: one
      cell per datum, in order, and no pending strategy items.  The groups
      are those of `Geometry.Groups`. */
  function NewGame(data: seq<int>): (g: Game)
    requires IsFourthPower(|data|)
    ensures WellFormed(g) && Consistent(g) && g.strategy == []
    ensures |g.cells| == |data|
    ensures forall i :: 0 <= i < |data| ==> g.cells[i] == NewCell(data[i])
  {
    var k := FourthRoot(|data|).value;
    Game(k, seq(|data|, i requires 0 <= i < |data| => NewCell(data[i])), [])
  }

  /** The cells given by the initial game are exactly the non-zero data. */
  lemma NewGameGivens(data: seq<int>, i: nat)
    requires IsFourthPower(|data|) && i < |data|
    ensures NewGame(data).cells[i].source == Some(InitialGame) <==> data[i] != 0
    ensures Truthy(ValueAt(NewGame(data), i)) <==> data[i] != 0
  {
  }

  /** A freshly loaded digit prints as that digit (an empty cell as `0`). */
  lemma NewCellText(d: int)
    requires 0 <= d <= 9
    ensures CellText(NewCell(d)) == [DigitChar(d)]
  {
    var c := NewCell(d);
    assert (if Truthy(c.value) then c.value.value else 0) == d;
  }

  /** The text of a freshly loaded board of digits has one character per
      cell, the cell's digit. */
  lemma ToStringDigits(data: seq<int>)
    requires IsFourthPower(|data|)
    requires forall i :: 0 <= i < |data| ==> 0 <= data[i] <= 9
    ensures |ToString(NewGame(data))| == |data|
    ensures forall i :: 0 <= i < |data| ==> ToString(NewGame(data))[i] == DigitChar(data[i])
  {
    var g := NewGame(data);
    var texts := seq(|g.cells|, i requires 0 <= i < |g.cells| => CellText(g.cells[i]));
    forall i | 0 <= i < |texts|
      ensures texts[i] == [DigitChar(data[i])]
    {
      NewCellText(data[i]);
    }
    JoinCharacters(texts);
  }

  /** A string of digits of fourth-power length reads back as those digits. */
  lemma ReadDigits(s: string, data: seq<int>)
    requires IsFourthPower(|s|) && |s| == |data|
    requires forall i :: 0 <= i < |data| ==> 0 <= data[i] <= 9 && s[i] == DigitChar(data[i])
    ensures ReadBoardFile(StringData(s)) == Ok(IntsOf(data))
  {
    forall i | 0 <= i < |s|
      ensures IsDigit(s[i]) && DigitValue(s[i]) == data[i]
    {
      assert s[i] == DigitChar(data[i]);
    }
    var r := ReadBoardFile(StringData(s));
    assert r.Ok?;
    var xs := IntsOf(data);
    assert |r.value| == |xs|;
    forall i | 0 <= i < |xs|
      ensures r.value[i] == xs[i]
    {
      assert r.value[i] == Int(DigitValue(s[i]));
    }
    assert r.value == xs;
  }

  /** `toString` of a freshly loaded board of digits reads back, through
      `readBoardFile`, as the same board. */
  lemma ToStringRoundTrip(data: seq<int>)
    requires IsFourthPower(|data|)
    requires forall i :: 0 <= i < |data| ==> 0 <= data[i] <= 9
    ensures ReadBoardFile(StringData(ToString(NewGame(data)))) == Ok(IntsOf(data))
  {
    ToStringDigits(data);
    ReadDigits(ToString(NewGame(data)), data);
  }
}

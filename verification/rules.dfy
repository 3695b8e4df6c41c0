/** src/utils/sudoku/rules.ts: the rule that makes a value invalid for a cell
    when another cell in one of its groups already holds it, and the rule
    list the game consults. */
module Rules {
  import opened Wrappers
  import opened Geometry
  import opened Types
  import opened Board

  /** An invalid-value map: the keys are the invalid values; the rule
      attaches no reasons (its `push()` has no argument), so every entry is
      the empty list. */
  type InvalidMap = map<int, seq<InvalidReason>>

  /** One group's blockers added to `out`: each other cell of the group that
      has a value makes that value a key. */
  function GroupBlockers(g: Game, i: nat, cells: seq<nat>, out: InvalidMap): (r: InvalidMap)
    ensures forall v :: v in r <==> (v in out || exists c :: c in cells && c != i && ValueAt(g, c) == Some(v))
    ensures forall v :: v in r ==> r[v] == (if v in out then out[v] else [])
    decreases |cells|
  {
    if |cells| == 0 then out
    else
      var c := cells[0];
      var out' :=
        if c != i && ValueAt(g, c).Some? then
          var v := ValueAt(g, c).value;
          if v in out then out else out[v := []]
        else out;
      GroupBlockers(g, i, cells[1..], out')
  }

  function Blockers(g: Game, i: nat, groups: seq<Group>, out: InvalidMap): (r: InvalidMap)
    ensures forall v :: v in r <==>
      (v in out || exists grp, c :: grp in groups && c in grp.cells && c != i && ValueAt(g, c) == Some(v))
    ensures forall v :: v in r ==> r[v] == (if v in out then out[v] else [])
    decreases |groups|
  {
    if |groups| == 0 then out
    else
      var r := Blockers(g, i, groups[1..], GroupBlockers(g, i, groups[0].cells, out));
      assert forall grp :: grp in groups ==> grp == groups[0] || grp in groups[1..];
      r
  }

  /** `sudoku(cell)`: the values held by other cells of the cell's groups. */
  function SudokuRule(g: Game, i: nat): (r: InvalidMap)
    requires g.k > 0
    ensures forall v :: v in r <==>
      exists grp, c :: grp in CellGroups(g.k, i) && c in grp.cells && c != i && ValueAt(g, c) == Some(v)
    ensures forall v :: v in r ==> r[v] == []
  {
    Blockers(g, i, CellGroups(g.k, i), map[])
  }

  /** The rule for a cell on the board in the terms of the board: `v` is
      invalid for `i` exactly when a different cell in the same box, row or
      column holds `v`. */
  lemma SudokuSees(g: Game, i: nat, v: int)
    requires WellFormed(g) && i < |g.cells|
    ensures g.k > 0
    ensures v in SudokuRule(g, i) <==> Seen(g, i, v)
  {
    OnBoardPositive(g.k, i);
    if v in SudokuRule(g, i) {
      BlockerSeen(g, i, v);
    }
    if Seen(g, i, v) {
      SeenBlocker(g, i, v);
    }
  }

  lemma BlockerSeen(g: Game, i: nat, v: int)
    requires WellFormed(g) && i < |g.cells| && g.k > 0
    requires v in SudokuRule(g, i)
    ensures Seen(g, i, v)
  {
    var grp, c :| grp in CellGroups(g.k, i) && c in grp.cells && c != i && ValueAt(g, c) == Some(v);
    CellGroupsHold(g.k, i, c);
  }

  lemma SeenBlocker(g: Game, i: nat, v: int)
    requires WellFormed(g) && i < |g.cells| && g.k > 0
    requires Seen(g, i, v)
    ensures v in SudokuRule(g, i)
  {
    var j :| 0 <= j < |g.cells| && j != i && SameUnit(g.k, i, j) && g.cells[j].value == Some(v);
    CellGroupsHold(g.k, i, j);
    var grp :| grp in CellGroups(g.k, i) && j in grp.cells;
    assert ValueAt(g, j) == Some(v);
  }

  /** Some other cell sharing a box, a row or a column with `i` holds `v`. */
  predicate Seen(g: Game, i: nat, v: int)
    requires g.k > 0
  {
    exists j :: 0 <= j < |g.cells| && j != i && SameUnit(g.k, i, j) && g.cells[j].value == Some(v)
  }

  /** The game's rules: `[rules.sudoku]`, every entry being truthy. */
  datatype Rule = SudokuConstraint

  const GameRules: seq<Rule> := [SudokuConstraint]

  function ApplyRule(rule: Rule, g: Game, i: nat): InvalidMap
    requires g.k > 0
  {
    match rule
    case SudokuConstraint => SudokuRule(g, i)
  }
}

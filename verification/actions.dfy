/** The actions of src/state/sudoku.ts: `Cell.applyBlockStrategy`,
    `Cell.applyStrategy`, `Game.applyStrategy`, and the game-level
    `resetPossibles` and `resetToStart`.  A thrown error is an `Err` (for a
    cell) or an error alongside the partly updated game (for the game, whose
    `forEach` stops at the throw). */
module Actions {
  import opened Wrappers
  import opened Collections
  import opened Geometry
  import opened Types
  import opened Board
  import opened Rules
  import opened Candidates

  function NotIn(values: seq<int>): int -> bool
  {
    n => n !in values
  }

  /** `Cell.applyBlockStrategy`: refuses when no available number would
      survive the block, then when the cell has a value; otherwise records
      the item. */
  function ApplyBlock(g: Game, i: nat, m: Move): (r: Result<Cell, ActionError>)
    requires WellFormed(g) && i < |g.cells| && m.Block?
    ensures r == Err(BlockingImpossible) <==> AllIn(Available(g, i), m.values)
    ensures r != Err(BlockingValuedCell)
    ensures r.Ok? ==> r.value == g.cells[i].(blocks := g.cells[i].blocks + [m])
  {
    var survivors := Filter(Available(g, i), NotIn(m.values));
    assert survivors == [] <==> AllIn(Available(g, i), m.values) by {
      if survivors != [] {
        assert survivors[0] in Available(g, i);
      }
    }
    if |survivors| == 0 then Err(BlockingImpossible)
    else if g.cells[i].value.Some? then Err(BlockingValuedCell)
    else Ok(g.cells[i].(blocks := g.cells[i].blocks + [m]))
  }

  /** Whether the item lists the cell among those it affects. */
  predicate Affected(m: Move, i: nat)
  {
    match m
    case Set(_, c, _, _) => c == i
    case Block(_, cs, _, _) => i in cs
  }

  /** `Cell.applyStrategy`: a set item sets the value with the item's
      method; a block item is applied only where it removes an available
      number; a cell the item does not affect is left alone. */
  function ApplyToCell(g: Game, i: nat, m: Move): Result<Cell, ActionError>
    requires WellFormed(g) && i < |g.cells|
  {
    if !Affected(m, i) then Ok(g.cells[i])
    else match m
      case Set(_, _, v, _) => SetCellValue(g.cells[i], Some(v), Some(MethodOf(m)))
      case Block(_, _, values, _) =>
        if Overlap(Available(g, i), values) then ApplyBlock(g, i, m) else Ok(g.cells[i])
  }

  /** The cell a block item leaves behind when nothing throws. */
  function BlockedCell(g: Game, i: nat, m: Move): Cell
    requires WellFormed(g) && i < |g.cells| && m.Block?
  {
    if i in m.cells && Overlap(Available(g, i), m.values) then g.cells[i].(blocks := g.cells[i].blocks + [m])
    else g.cells[i]
  }

  /** Whether applying the block item to cell `i` throws. */
  predicate BlockFails(g: Game, i: nat, m: Move)
    requires WellFormed(g) && i < |g.cells| && m.Block?
  {
    i in m.cells && Overlap(Available(g, i), m.values) && AllIn(Available(g, i), m.values)
  }

  /** The `forEach` over the cells from index `i` on. */
  function ApplyFrom(g: Game, m: Move, i: nat): (r: (Game, Option<ActionError>))
    requires WellFormed(g) && i <= |g.cells|
    ensures r.0.k == g.k && |r.0.cells| == |g.cells| && r.0.strategy == g.strategy
    ensures forall j :: 0 <= j < i ==> r.0.cells[j] == g.cells[j]
    decreases |g.cells| - i
  {
    if i == |g.cells| then (g, None)
    else match ApplyToCell(g, i, m)
      case Err(e) => (g, Some(e))
      case Ok(c) => ApplyFrom(g.(cells := g.cells[i := c]), m, i + 1)
  }

  /** One group's blockers read only the values of the cells. */
  lemma {:induction false} GroupBlockersDependOnValues(g: Game, h: Game, i: nat, cells: seq<nat>, out: InvalidMap)
    requires forall c :: ValueAt(g, c) == ValueAt(h, c)
    ensures GroupBlockers(g, i, cells, out) == GroupBlockers(h, i, cells, out)
    decreases |cells|
  {
    if |cells| > 0 {
      var c := cells[0];
      assert ValueAt(g, c) == ValueAt(h, c);
      var out' :=
        if c != i && ValueAt(g, c).Some? then
          var v := ValueAt(g, c).value;
          if v in out then out else out[v := []]
        else out;
      GroupBlockersDependOnValues(g, h, i, cells[1..], out');
    }
  }

  lemma {:induction false} BlockersDependOnValues(g: Game, h: Game, i: nat, groups: seq<Group>, out: InvalidMap)
    requires forall c :: ValueAt(g, c) == ValueAt(h, c)
    ensures Blockers(g, i, groups, out) == Blockers(h, i, groups, out)
    decreases |groups|
  {
    if |groups| > 0 {
      GroupBlockersDependOnValues(g, h, i, groups[0].cells, out);
      BlockersDependOnValues(g, h, i, groups[1..], GroupBlockers(g, i, groups[0].cells, out));
    }
  }

  /** The sudoku rule reads only the values of the cells. */
  lemma RuleDependsOnValues(g: Game, h: Game, i: nat)
    requires g.k == h.k && g.k > 0
    requires forall c :: ValueAt(g, c) == ValueAt(h, c)
    ensures SudokuRule(g, i) == SudokuRule(h, i)
  {
    BlockersDependOnValues(g, h, i, CellGroups(g.k, i), map[]);
  }

  /** So do the invalid values of a cell. */
  lemma InvalidDependsOnValues(g: Game, h: Game, i: nat)
    requires g.k == h.k && g.k > 0
    requires forall c :: ValueAt(g, c) == ValueAt(h, c)
    ensures InvalidValues(g, i) == InvalidValues(h, i)
  {
    RuleDependsOnValues(g, h, i);
    var a, b := InvalidValues(g, i), InvalidValues(h, i);
    assert forall v :: v in a <==> v in b;
  }

  /** Two games with the same shape and values give a cell with the same
      block items the same available numbers. */
  lemma AvailableDependsOn(g: Game, h: Game, i: nat)
    requires WellFormed(g) && WellFormed(h) && g.k == h.k
    requires forall c :: ValueAt(g, c) == ValueAt(h, c)
    requires i < |g.cells| ==> g.cells[i].blocks == h.cells[i].blocks
    ensures Available(g, i) == Available(h, i)
  {
    assert ValueAt(g, i) == ValueAt(h, i);
    if i < |g.cells| && g.cells[i].value.None? {
      CandidatesDependOn(g, h, i);
      assert PossibleValues(g) == PossibleValues(h);
      FilterSame(PossibleValues(g), CandidateOf(g, i), CandidateOf(h, i));
    }
  }

  /** The candidate test of an on-board cell reads only the values and
      the cell's own block items. */
  lemma CandidatesDependOn(g: Game, h: Game, i: nat)
    requires WellFormed(g) && WellFormed(h) && g.k == h.k && i < |g.cells|
    requires forall c :: ValueAt(g, c) == ValueAt(h, c)
    requires g.cells[i].blocks == h.cells[i].blocks
    ensures forall v :: CandidateOf(g, i)(v) == CandidateOf(h, i)(v)
  {
    OnBoardPositive(g.k, i);
    InvalidDependsOnValues(g, h, i);
    assert BlockedFrom(g.cells[i].blocks, map[]) == BlockedFrom(h.cells[i].blocks, map[]);
    forall v
      ensures CandidateOf(g, i)(v) == CandidateOf(h, i)(v)
    {
      assert CandidateOf(g, i)(v) == Candidate(g, i, v);
      assert CandidateOf(h, i)(v) == Candidate(h, i, v);
    }
  }

  /* ------------------------------ Block items ------------------------------ */

  function FailsAt(g: Game, m: Move): nat -> bool
    requires WellFormed(g) && m.Block?
  {
    (j: nat) => j < |g.cells| && BlockFails(g, j, m)
  }

  /** The first cell from `i` on where the block item throws, or the board's
      length when there is none. */
  function FirstFailure(g: Game, m: Move, i: nat): (r: nat)
    requires WellFormed(g) && m.Block? && i <= |g.cells|
    ensures i <= r <= |g.cells|
  {
    FirstWhere(FailsAt(g, m), i, |g.cells|)
  }

  /** Every cell before the first failure is blocked without a throw, and
      the first failure, when on the board, throws. */
  lemma FirstFailureSpec(g: Game, m: Move, i: nat)
    requires WellFormed(g) && m.Block? && i <= |g.cells|
    ensures forall j :: i <= j < FirstFailure(g, m, i) ==> !BlockFails(g, j, m)
    ensures FirstFailure(g, m, i) < |g.cells| ==> BlockFails(g, FirstFailure(g, m, i), m)
  {
    var r := FirstFailure(g, m, i);
    forall j | i <= j < r
      ensures !BlockFails(g, j, m)
    {
      assert !FailsAt(g, m)(j);
    }
    if r < |g.cells| {
      assert FailsAt(g, m)(r);
    }
  }

  /** The loop invariant of a block item's `forEach`: the cells before `i`
      are done, the rest untouched, and no value has changed. */
  predicate BlockedUpTo(g0: Game, g: Game, m: Move, i: nat)
    requires WellFormed(g0) && m.Block?
  {
    g.k == g0.k && |g.cells| == |g0.cells| && g.strategy == g0.strategy && i <= |g.cells|
    && (forall j :: 0 <= j < i ==> g.cells[j] == BlockedCell(g0, j, m))
    && (forall j :: i <= j < |g.cells| ==> g.cells[j] == g0.cells[j])
  }

  lemma BlockedKeepsValues(g0: Game, g: Game, m: Move, i: nat)
    requires WellFormed(g0) && m.Block? && BlockedUpTo(g0, g, m, i)
    ensures forall c :: ValueAt(g, c) == ValueAt(g0, c)
  {
    forall c: nat
      ensures ValueAt(g, c) == ValueAt(g0, c)
    {
      if c < |g.cells| && c < i {
        assert g.cells[c] == BlockedCell(g0, c, m);
      }
    }
  }

  /** One step of a block item's `forEach` under the invariant. */
  lemma BlockStep(g0: Game, g: Game, m: Move, i: nat)
    requires WellFormed(g0) && m.Block? && BlockedUpTo(g0, g, m, i) && i < |g.cells|
    ensures WellFormed(g)
    ensures ApplyToCell(g, i, m) ==
      if BlockFails(g0, i, m) then Err(BlockingImpossible) else Ok(BlockedCell(g0, i, m))
  {
    BlockedKeepsValues(g0, g, m, i);
    AvailableDependsOn(g, g0, i);
  }

  lemma BlockedUpToStep(g0: Game, g: Game, m: Move, i: nat)
    requires WellFormed(g0) && m.Block? && BlockedUpTo(g0, g, m, i) && i < |g.cells|
    ensures BlockedUpTo(g0, g.(cells := g.cells[i := BlockedCell(g0, i, m)]), m, i + 1)
  {
  }

  lemma FirstFailureStep(g: Game, m: Move, i: nat)
    requires WellFormed(g) && m.Block? && i < |g.cells|
    ensures FirstFailure(g, m, i) == if BlockFails(g, i, m) then i else FirstFailure(g, m, i + 1)
  {
    assert FailsAt(g, m)(i) == BlockFails(g, i, m);
  }

  /** From the invariant at `i`, the `forEach` stops at the first failure
      with every earlier cell done and every later one untouched. */
  lemma {:induction false} BlockFrom(g0: Game, g: Game, m: Move, i: nat)
    requires WellFormed(g0) && m.Block? && BlockedUpTo(g0, g, m, i)
    ensures WellFormed(g)
    ensures var r := ApplyFrom(g, m, i);
      var stop := FirstFailure(g0, m, i);
      && r.1 == (if stop < |g0.cells| then Some(BlockingImpossible) else None)
      && BlockedUpTo(g0, r.0, m, stop)
    decreases |g.cells| - i
  {
    if i < |g.cells| {
      BlockStep(g0, g, m, i);
      FirstFailureStep(g0, m, i);
      if BlockFails(g0, i, m) {
        assert ApplyFrom(g, m, i) == (g, Some(BlockingImpossible));
      } else {
        var h := g.(cells := g.cells[i := BlockedCell(g0, i, m)]);
        BlockedUpToStep(g0, g, m, i);
        BlockFrom(g0, h, m, i + 1);
        assert ApplyFrom(g, m, i) == ApplyFrom(h, m, i + 1);
        assert FirstFailure(g0, m, i) == FirstFailure(g0, m, i + 1);
      }
    } else {
      assert ApplyFrom(g, m, i) == (g, None);
    }
  }

  /* ------------------------------- Set items ------------------------------- */

  /** Cells the item does not affect leave the `forEach` without effect. */
  lemma {:induction false} UnaffectedFrom(g: Game, m: Move, i: nat)
    requires WellFormed(g) && i <= |g.cells|
    requires forall j :: i <= j < |g.cells| ==> !Affected(m, j)
    ensures ApplyFrom(g, m, i) == (g, None)
    decreases |g.cells| - i
  {
    if i < |g.cells| {
      assert g.(cells := g.cells[i := g.cells[i]]) == g;
      UnaffectedFrom(g, m, i + 1);
    }
  }

  /** A set item's outcome: only its cell is touched, by `setValue`. */
  function SetOutcome(g: Game, m: Move): (Game, Option<ActionError>)
    requires m.Set?
  {
    if m.cell < |g.cells| then
      match SetCellValue(g.cells[m.cell], Some(m.value), Some(MethodOf(m)))
      case Err(e) => (g, Some(e))
      case Ok(c) => (g.(cells := g.cells[m.cell := c]), None)
    else (g, None)
  }

  lemma {:induction false} SetFrom(g: Game, m: Move, i: nat)
    requires WellFormed(g) && m.Set? && i <= |g.cells|
    requires i <= m.cell
    ensures ApplyFrom(g, m, i) == SetOutcome(g, m)
    decreases |g.cells| - i
  {
    if i < |g.cells| {
      if i < m.cell {
        assert g.(cells := g.cells[i := g.cells[i]]) == g;
        SetFrom(g, m, i + 1);
      } else {
        match SetCellValue(g.cells[i], Some(m.value), Some(MethodOf(m)))
        case Err(e) =>
        case Ok(c) =>
          UnaffectedFrom(g.(cells := g.cells[i := c]), m, i + 1);
      }
    } else {
      UnaffectedFrom(g, m, i);
    }
  }

  /* ------------------------------- The game -------------------------------- */

  /** `Game.applyStrategy`: every cell in order applies the item.  A set item
      fails only on an initial-game cell and then changes nothing; a block
      item records itself on each listed cell where it removes an available
      number, and stops with an error at the first such cell it would leave
      without any available number, the cells before it already updated. */
  function ApplyStrategy(g: Game, m: Move): (r: (Game, Option<ActionError>))
    requires WellFormed(g)
    ensures WellFormed(r.0) && r.0.k == g.k && r.0.strategy == g.strategy
    ensures m.Set? ==> (r.1.Some? <==> m.cell < |g.cells| && g.cells[m.cell].source == Some(InitialGame))
    ensures m.Set? && r.1.Some? ==> r == (g, Some(StaticCell))
    ensures m.Set? && r.1.None? ==> forall j :: 0 <= j < |g.cells| ==>
      r.0.cells[j] == (if j == m.cell then SetCellValue(g.cells[j], Some(m.value), Some(MethodOf(m))).value else g.cells[j])
    ensures m.Block? ==> var stop := FirstFailure(g, m, 0);
      && r.1 == (if stop < |g.cells| then Some(BlockingImpossible) else None)
      && forall j :: 0 <= j < |g.cells| ==>
           r.0.cells[j] == (if j < stop then BlockedCell(g, j, m) else g.cells[j])
  {
    if m.Block? then BlockFrom(g, g, m, 0); ApplyFrom(g, m, 0)
    else SetFrom(g, m, 0); ApplyFrom(g, m, 0)
  }

  /** Cells an item does not affect are never changed. */
  lemma UnaffectedUnchanged(g: Game, m: Move, j: nat)
    requires WellFormed(g) && j < |g.cells| && !Affected(m, j)
    ensures ApplyStrategy(g, m).0.cells[j] == g.cells[j]
  {
  }

  /** Applying an item keeps a consistent game consistent. */
  lemma ApplyKeepsConsistent(g: Game, m: Move)
    requires WellFormed(g) && Consistent(g)
    ensures Consistent(ApplyStrategy(g, m).0)
  {
    if m.Set? {
      SetKeepsConsistent(g, m);
    } else {
      BlockKeepsConsistent(g, m);
    }
  }

  lemma SetKeepsConsistent(g: Game, m: Move)
    requires WellFormed(g) && Consistent(g) && m.Set?
    ensures Consistent(ApplyStrategy(g, m).0)
  {
    var r := ApplyStrategy(g, m);
    if r.1.None? {
      forall j | 0 <= j < |r.0.cells|
        ensures CellConsistent(r.0.cells[j])
      {
        assert CellConsistent(g.cells[j]);
        if j == m.cell {
          var c := SetCellValue(g.cells[j], Some(m.value), Some(MethodOf(m)));
          assert r.0.cells[j] == c.value;
        } else {
          assert r.0.cells[j] == g.cells[j];
        }
      }
    }
  }

  lemma BlockKeepsConsistent(g: Game, m: Move)
    requires WellFormed(g) && Consistent(g) && m.Block?
    ensures Consistent(ApplyStrategy(g, m).0)
  {
    var r := ApplyStrategy(g, m).0;
    var stop := FirstFailure(g, m, 0);
    forall j | 0 <= j < |r.cells|
      ensures CellConsistent(r.cells[j])
    {
      assert CellConsistent(g.cells[j]);
      if j < stop {
        assert r.cells[j] == BlockedCell(g, j, m);
      } else {
        assert r.cells[j] == g.cells[j];
      }
    }
  }

  /* ------------------------------- Resetting ------------------------------- */

  /** `Game.resetPossibles`: every non-initial cell forgets its block items. */
  function ResetPossibles(g: Game): (r: Game)
    ensures r.k == g.k && |r.cells| == |g.cells| && r.strategy == g.strategy
    ensures forall i :: ValueAt(r, i) == ValueAt(g, i)
    ensures forall i :: 0 <= i < |g.cells| ==> r.cells[i] == ResetCellPossibles(g.cells[i])
  {
    g.(cells := seq(|g.cells|, i requires 0 <= i < |g.cells| => ResetCellPossibles(g.cells[i])))
  }

  /** `Game.resetToStart`: every non-initial cell becomes empty. */
  function ResetToStart(g: Game): (r: Game)
    ensures r.k == g.k && |r.cells| == |g.cells| && r.strategy == g.strategy
    ensures forall i :: 0 <= i < |g.cells| ==> r.cells[i] == ResetCell(g.cells[i])
  {
    g.(cells := seq(|g.cells|, i requires 0 <= i < |g.cells| => ResetCell(g.cells[i])))
  }

  lemma ResetToStartIdempotent(g: Game)
    ensures ResetToStart(ResetToStart(g)) == ResetToStart(g)
  {
    var once := ResetToStart(g);
    forall i | 0 <= i < |g.cells|
      ensures ResetToStart(once).cells[i] == once.cells[i]
    {
      ResetCellIdempotent(g.cells[i]);
    }
  }

  /** Resetting to the start forgets every solving item applied since: any
      item other than an initial-game set, whether or not it fails. */
  lemma ResetForgetsItem(g: Game, m: Move)
    requires WellFormed(g) && Consistent(g)
    requires m.Set? ==> m.setMethod != SetByInitialGame
    ensures ResetToStart(ApplyStrategy(g, m).0) == ResetToStart(g)
  {
    var r := ApplyStrategy(g, m).0;
    forall i | 0 <= i < |g.cells|
      ensures ResetCell(r.cells[i]) == ResetCell(g.cells[i])
    {
      assert CellConsistent(g.cells[i]);
      if m.Block? && r.cells[i] != g.cells[i] {
        assert Overlap(Available(g, i), m.values);
        assert g.cells[i].value.None?;
      }
    }
  }
}

/** src/state/sudoku.ts, the solving actions of `Game`: the strategy overlay
    `strategyGame`, `checkSolutions`, `stepSolveGame` and `solveGame`. */
module Solve {
  import opened Wrappers
  import opened Collections
  import opened Types
  import opened Board
  import opened Candidates
  import opened Actions
  import opened Termination
  import opened Strategy

  /** The two ways building the overlay throws: `actions[-1].value` on a
      cell with a pending set item, and "Available, not implemented" while
      a block item is pending. */
  datatype OverlayError = LastSetUndefined | AvailableNotImplemented

  /** What a solving action can throw. */
  datatype SolveError =
    | OverlayFailed(overlay: OverlayError)
    | StepFailed(step: StrategyError)
    | ApplyFailed(apply: ActionError)

  predicate PendingSetOn(g: Game, c: nat)
  {
    exists i :: 0 <= i < |g.strategy| && g.strategy[i].Set? && g.strategy[i].cell == c
  }

  predicate PendingSet(g: Game)
  {
    exists i :: 0 <= i < |g.strategy| && g.strategy[i].Set? && g.strategy[i].cell < |g.cells|
  }

  predicate PendingBlock(g: Game)
  {
    exists i :: 0 <= i < |g.strategy| && g.strategy[i].Block?
  }

  /** `strategyGame`: the board seen through the pending strategy items.
      Its cells are built in order starting with cell 0, reading each
      cell's overlay value before its overlay candidates; without pending
      items the overlay is the game itself. */
  function StrategyGame(g: Game): (r: Result<Game, OverlayError>)
    ensures r.Ok? ==> r.value == g
    ensures r.Ok? <==>
      |g.cells| == 0 || forall i :: 0 <= i < |g.strategy| ==> g.strategy[i].Set? && g.strategy[i].cell >= |g.cells|
    ensures r == Err(AvailableNotImplemented) <==> |g.cells| > 0 && PendingBlock(g) && !PendingSetOn(g, 0)
  {
    if |g.cells| == 0 then Ok(g)
    else if PendingSetOn(g, 0) then Err(LastSetUndefined)
    else if PendingBlock(g) then Err(AvailableNotImplemented)
    else if PendingSet(g) then Err(LastSetUndefined)
    else Ok(g)
  }

  /** A found item, once pending, makes the overlay throw. */
  lemma PendingItemBreaksOverlay(g: Game, m: Move)
    requires WellFormed(g) && MakesProgress(g, m)
    ensures StrategyGame(g.(strategy := g.strategy + [m])).Err?
  {
    var h := g.(strategy := g.strategy + [m]);
    assert h.strategy[|g.strategy|] == m;
    if m.Block? {
      var j :| 0 <= j < |g.cells| && j in m.cells && Overlap(Available(g, j), m.values);
    }
  }

  /** `checkSolutions`: with the pending list cleared, collects items found
      on the overlay until it is solved, invalid or stuck.  Committed cells
      are never touched.  Because the overlay throws as soon as an item is
      pending, at most one item is collected, and collecting one always
      ends in a throw. */
  method CheckSolutions(g: Game) returns (h: Game, err: Option<SolveError>)
    requires WellFormed(g)
    ensures h.k == g.k && h.cells == g.cells
    ensures var g0 := g.(strategy := []); var s := BuildStrategyStep(g0);
      && (IsSolved(g0) || !IsValid(g0) || s == Ok(None) ==> h.strategy == [] && err.None?)
      && (!IsSolved(g0) && IsValid(g0) && s.Ok? && s.value.Some? ==>
            h.strategy == [s.value.value] && err.Some? && err.value.OverlayFailed?)
  {
    var g0 := g.(strategy := []);
    FirstRound(g0);
    h := g0;
    err := None;
    while true
      invariant h.k == g.k && h.cells == g.cells && |h.strategy| <= 1
      invariant h.strategy == [] ==> h == g0
      invariant |h.strategy| == 1 ==>
        && !IsSolved(g0) && IsValid(g0) && BuildStrategyStep(g0) == Ok(Some(h.strategy[0]))
        && h == g0.(strategy := [h.strategy[0]])
      decreases 1 - |h.strategy|
    {
      var view := StrategyGame(h);
      if view.Err? {
        err := Some(OverlayFailed(view.error));
        return;
      }
      var sg := view.value;
      if IsSolved(sg) || !IsValid(sg) {
        return;
      }
      var step := BuildStrategyStep(sg);
      if step.value.None? {
        return;
      }
      h := h.(strategy := h.strategy + [step.value.value]);
    }
  }

  /** What the first round of `checkSolutions` sees: the overlay of the
      cleared game is the game itself, `buildStrategyStep` does not throw
      on it when it is valid, and once the item it finds is pending the
      overlay throws. */
  lemma FirstRound(g0: Game)
    requires WellFormed(g0) && g0.strategy == []
    ensures StrategyGame(g0) == Ok(g0)
    ensures IsValid(g0) ==> BuildStrategyStep(g0).Ok?
    ensures IsValid(g0) && BuildStrategyStep(g0).value.Some? ==>
      StrategyGame(g0.(strategy := [BuildStrategyStep(g0).value.value])).Err?
  {
    ClearedOverlay(g0);
    BuildStrategyStepThrows(g0);
    BuildStrategyStepProgress(g0);
    var s := BuildStrategyStep(g0);
    if IsValid(g0) && s.value.Some? {
      OnlyPendingBreaks(g0, s.value.value);
    }
  }

  /** Without pending items the overlay is the game itself. */
  lemma ClearedOverlay(g0: Game)
    requires g0.strategy == []
    ensures StrategyGame(g0) == Ok(g0)
  {
    assert !PendingSetOn(g0, 0) && !PendingBlock(g0) && !PendingSet(g0);
  }

  /** The cleared game with one found item pending: its overlay throws. */
  lemma OnlyPendingBreaks(g0: Game, m: Move)
    requires WellFormed(g0) && g0.strategy == [] && MakesProgress(g0, m)
    ensures StrategyGame(g0.(strategy := [m])).Err?
  {
    PendingItemBreaksOverlay(g0, m);
    assert g0.strategy + [m] == [m];
  }

  /** Applying an item that makes progress to a consistent game keeps it
      consistent; it can only throw when a block item would empty a cell,
      and otherwise keeps every value and block and shrinks the
      open-candidate measure. */
  lemma ApplyProgressing(g: Game, m: Move)
    requires WellFormed(g) && Consistent(g) && MakesProgress(g, m)
    ensures var r := ApplyStrategy(g, m);
      && WellFormed(r.0) && Consistent(r.0) && r.0.k == g.k && r.0.strategy == g.strategy
      && (r.1.Some? ==> r.1 == Some(BlockingImpossible))
      && (r.1.None? ==> Extends(g, r.0) && Open(r.0) < Open(g))
  {
    ApplyKeepsConsistent(g, m);
    if m.Set? {
      ProgressSetSucceeds(g, m);
    }
    if ApplyStrategy(g, m).1.None? {
      ProgressShrinks(g, m);
      ProgressExtends(g, m);
    }
  }

  /** The rest of `stepSolveGame` once `buildStrategyStep` has answered `s`. */
  function ApplyFound(g: Game, s: Result<Option<Move>, StrategyError>): (Game, Option<SolveError>)
    requires WellFormed(g)
  {
    match s
    case Err(e) => (g, Some(StepFailed(e)))
    case Ok(None) => (g, None)
    case Ok(Some(m)) =>
      var (h, e) := ApplyStrategy(g, m);
      (h, if e.Some? then Some(ApplyFailed(e.value)) else None)
  }

  /** `stepSolveGame`: clears the pending list and applies the first item
      found, if any. */
  function StepSolveGame(g: Game): (r: (Game, Option<SolveError>))
    requires WellFormed(g)
  {
    var g0 := g.(strategy := []);
    ApplyFound(g0, BuildStrategyStep(g0))
  }

  lemma ApplyFoundSpec(g: Game, s: Result<Option<Move>, StrategyError>)
    requires WellFormed(g) && Consistent(g) && g.strategy == []
    requires (s.Err? <==> !IsValid(g)) && (s.Err? ==> s.error == GameInvalid)
    requires s.Ok? && s.value.Some? ==> MakesProgress(g, s.value.value)
    ensures var r := ApplyFound(g, s);
      && WellFormed(r.0) && Consistent(r.0) && r.0.strategy == []
      && (!IsValid(g) ==> r == (g, Some(StepFailed(GameInvalid))))
      && (r.1.Some? ==> r.1 == Some(StepFailed(GameInvalid)) || r.1 == Some(ApplyFailed(BlockingImpossible)))
      && (IsValid(g) && r.1.None? ==> r.0 == g || (Extends(g, r.0) && Open(r.0) < Open(g)))
  {
    if s.Ok? && s.value.Some? {
      ApplyProgressing(g, s.value.value);
    }
  }

  /** One step on an invalid game throws; on a valid one it either finds
      nothing or applies an item that keeps every value and block, shrinks
      the open-candidate measure, and keeps the game consistent.  On a
      consistent game a set item never hits a given cell. */
  lemma StepSolveGameSpec(g: Game)
    requires WellFormed(g) && Consistent(g)
    ensures var g0 := g.(strategy := []); var r := StepSolveGame(g);
      && WellFormed(r.0) && Consistent(r.0) && r.0.strategy == []
      && (!IsValid(g0) ==> r == (g0, Some(StepFailed(GameInvalid))))
      && (r.1.Some? ==> r.1 == Some(StepFailed(GameInvalid)) || r.1 == Some(ApplyFailed(BlockingImpossible)))
      && (IsValid(g0) && r.1.None? ==> r.0 == g0 || (Extends(g0, r.0) && Open(r.0) < Open(g0)))
  {
    var g0 := g.(strategy := []);
    assert Consistent(g0);
    BuildStrategyStepThrows(g0);
    BuildStrategyStepProgress(g0);
    ApplyFoundSpec(g0, BuildStrategyStep(g0));
  }

  /** `solveGame`: applies items until the game is solved, invalid or
      stuck.  The code sets no bound on the loop; it ends because every
      applied item shrinks the open-candidate measure.  A block item that
      would empty a cell throws midway, leaving the cells before it
      blocked. */
  method SolveGame(g: Game) returns (h: Game, err: Option<SolveError>)
    requires WellFormed(g) && Consistent(g)
    ensures WellFormed(h) && Consistent(h) && h.k == g.k && h.strategy == []
    ensures err.None? ==> Extends(g, h) && (IsSolved(h) || !IsValid(h) || BuildStrategyStep(h) == Ok(None))
    ensures err.Some? ==> err == Some(ApplyFailed(BlockingImpossible))
  {
    h := g.(strategy := []);
    err := None;
    while !IsSolved(h)
      invariant WellFormed(h) && Consistent(h) && h.k == g.k && h.strategy == [] && Extends(g, h)
      decreases Open(h)
    {
      if !IsValid(h) {
        return;
      }
      var step := BuildStrategyStep(h);
      BuildStrategyStepThrows(h);
      if step.value.None? {
        return;
      }
      var m := step.value.value;
      BuildStrategyStepProgress(h);
      ApplyProgressing(h, m);
      var next := ApplyStrategy(h, m);
      if next.1.Some? {
        h, err := next.0, Some(ApplyFailed(next.1.value));
        return;
      }
      ExtendsTransitive(g, h, next.0);
      h := next.0;
    }
  }
}

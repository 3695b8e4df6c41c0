/** Why `Game.solveGame` (src/state/sudoku.ts) stops although its loop has no
    bound: every item the strategies hand it removes at least one available
    number from the board, and applying an item never adds one. */
module Termination {
  import opened Wrappers
  import opened Collections
  import opened Geometry
  import opened Types
  import opened Board
  import opened Rules
  import opened Candidates
  import opened Actions

  /** `f(0) + … + f(n - 1)`. */
  function SumTo(f: nat -> nat, n: nat): nat
  {
    if n == 0 then 0 else SumTo(f, n - 1) + f(n - 1)
  }

  lemma {:induction false} SumShrinks(f: nat -> nat, h: nat -> nat, n: nat)
    requires forall j: nat :: j < n ==> h(j) <= f(j)
    ensures SumTo(h, n) <= SumTo(f, n)
    ensures (exists j: nat :: j < n && h(j) < f(j)) ==> SumTo(h, n) < SumTo(f, n)
  {
    if n > 0 {
      SumShrinks(f, h, n - 1);
    }
  }

  lemma {:induction false} SumZero(f: nat -> nat, n: nat)
    ensures SumTo(f, n) == 0 <==> forall j: nat :: j < n ==> f(j) == 0
  {
    if n > 0 {
      SumZero(f, n - 1);
    }
  }

  function CountOf(g: Game): nat -> nat
    requires WellFormed(g)
  {
    (j: nat) => |Available(g, j)|
  }

  /** The number of (cell, available number) pairs on the board. */
  function Open(g: Game): nat
    requires WellFormed(g)
  {
    SumTo(CountOf(g), |g.cells|)
  }

  /** The measure is zero exactly when no cell has an available number. */
  lemma OpenZero(g: Game)
    requires WellFormed(g)
    ensures Open(g) == 0 <==> forall j :: 0 <= j < |g.cells| ==> Available(g, j) == []
  {
    SumZero(CountOf(g), |g.cells|);
    assert forall j: nat :: CountOf(g)(j) == 0 <==> Available(g, j) == [];
  }

  /** `h` keeps every value of `g` and every block item of each of its
      cells, on a board of the same shape. */
  predicate Extends(g: Game, h: Game)
  {
    && g.k == h.k && |g.cells| == |h.cells|
    && (forall c :: 0 <= c < |g.cells| && g.cells[c].value.Some? ==> h.cells[c].value == g.cells[c].value)
    && (forall j, b :: 0 <= j < |g.cells| && b in g.cells[j].blocks ==> b in h.cells[j].blocks)
  }

  lemma SeenGrows(g: Game, h: Game, j: nat, x: int)
    requires g.k > 0 && Extends(g, h) && Seen(g, j, x)
    ensures Seen(h, j, x)
  {
    var w :| 0 <= w < |g.cells| && w != j && SameUnit(g.k, j, w) && g.cells[w].value == Some(x);
    assert h.cells[w].value == Some(x);
  }

  lemma CandidateShrinks(g: Game, h: Game, j: nat, x: int)
    requires WellFormed(g) && WellFormed(h) && Extends(g, h) && j < |g.cells|
    requires Candidate(h, j, x)
    ensures Candidate(g, j, x)
  {
    CandidateIff(g, j, x);
    CandidateIff(h, j, x);
    if Seen(g, j, x) {
      SeenGrows(g, h, j, x);
    }
  }

  /** Growing a game never gives a cell more available numbers; it gives
      fewer when one of them stops being a candidate or the cell gets a
      value. */
  lemma AvailableShrinks(g: Game, h: Game, j: nat, x: int)
    requires WellFormed(g) && WellFormed(h) && Extends(g, h)
    ensures |Available(h, j)| <= |Available(g, j)|
    ensures x in Available(g, j) && (h.cells[j].value.Some? || !Candidate(h, j, x)) ==>
      |Available(h, j)| < |Available(g, j)|
  {
    if j >= |g.cells| {
      assert Available(g, j) == [] && Available(h, j) == [];
    } else if h.cells[j].value.None? {
      OpenAvailableShrinks(g, h, j, x);
    } else {
      assert Available(h, j) == [];
      if x in Available(g, j) {
        assert |Available(g, j)| > 0;
      }
    }
  }

  /** The case of a cell still empty in the grown game: its candidates
      can only shrink. */
  lemma OpenAvailableShrinks(g: Game, h: Game, j: nat, x: int)
    requires WellFormed(g) && WellFormed(h) && Extends(g, h)
    requires j < |g.cells| && h.cells[j].value.None?
    ensures |Available(h, j)| <= |Available(g, j)|
    ensures x in Available(g, j) && !Candidate(h, j, x) ==> |Available(h, j)| < |Available(g, j)|
  {
    var pv := PossibleValues(g);
    assert g.cells[j].value.None?;
    assert PossibleValues(h) == pv;
    assert Available(g, j) == Filter(pv, CandidateOf(g, j));
    assert Available(h, j) == Filter(pv, CandidateOf(h, j));
    forall v | v in pv && CandidateOf(h, j)(v)
      ensures CandidateOf(g, j)(v)
    {
      CandidateShrinks(g, h, j, v);
    }
    if x in Available(g, j) && !Candidate(h, j, x) {
      AvailableMembers(g, j, x);
      RangeMembersOfPossible(g, x);
      assert x in pv && CandidateOf(g, j)(x) && !CandidateOf(h, j)(x);
    }
    FilterShrinks(pv, CandidateOf(h, j), CandidateOf(g, j));
  }

  lemma RangeMembersOfPossible(g: Game, x: int)
    requires 1 <= x <= Size(g)
    ensures x in PossibleValues(g)
  {
  }

  /** An item that changes the board: a set of an empty cell to one of its
      available numbers, or a block of some listed cell that removes one of
      its available numbers. */
  predicate MakesProgress(g: Game, m: Move)
    requires WellFormed(g)
  {
    match m
    case Set(_, t, v, _) => t < |g.cells| && g.cells[t].value.None? && v in Available(g, t)
    case Block(_, cs, vs, _) => exists j :: 0 <= j < |g.cells| && j in cs && Overlap(Available(g, j), vs)
  }

  /** A set item that makes progress lands on a cell without a source, so
      it never hits the static-cell error. */
  lemma ProgressSetSucceeds(g: Game, m: Move)
    requires WellFormed(g) && Consistent(g) && m.Set? && MakesProgress(g, m)
    ensures ApplyStrategy(g, m).1 == None
  {
    assert CellConsistent(g.cells[m.cell]);
  }

  /** Growing a game lowers the measure once some cell loses an available
      number. */
  lemma ExtendsShrinks(g: Game, h: Game, w: nat, x: int)
    requires WellFormed(g) && WellFormed(h) && Extends(g, h) && w < |g.cells|
    requires x in Available(g, w) && (h.cells[w].value.Some? || !Candidate(h, w, x))
    ensures Open(h) < Open(g)
  {
    forall j: nat | j < |g.cells|
      ensures CountOf(h)(j) <= CountOf(g)(j)
    {
      AvailableShrinks(g, h, j, x);
    }
    AvailableShrinks(g, h, w, x);
    assert CountOf(h)(w) < CountOf(g)(w);
    SumShrinks(CountOf(g), CountOf(h), |g.cells|);
  }

  lemma SetShrinks(g: Game, m: Move)
    requires WellFormed(g) && m.Set? && MakesProgress(g, m) && ApplyStrategy(g, m).1 == None
    ensures Open(ApplyStrategy(g, m).0) < Open(g)
  {
    var r := ApplyStrategy(g, m).0;
    assert 1 <= m.value;
    forall c | 0 <= c < |g.cells| && g.cells[c].value.Some?
      ensures r.cells[c].value == g.cells[c].value
    {
      assert c != m.cell;
    }
    assert r.cells[m.cell].value.Some?;
    ExtendsShrinks(g, r, m.cell, m.value);
  }

  /** A block item applied without error blocks every listed cell it
      overlaps and so grows the game. */
  lemma BlockExtends(g: Game, m: Move)
    requires WellFormed(g) && m.Block? && ApplyStrategy(g, m).1 == None
    ensures forall c :: 0 <= c < |g.cells| ==> ApplyStrategy(g, m).0.cells[c] == BlockedCell(g, c, m)
    ensures Extends(g, ApplyStrategy(g, m).0)
  {
    assert FirstFailure(g, m, 0) == |g.cells|;
  }

  lemma BlockShrinks(g: Game, m: Move)
    requires WellFormed(g) && m.Block? && MakesProgress(g, m) && ApplyStrategy(g, m).1 == None
    ensures Open(ApplyStrategy(g, m).0) < Open(g)
  {
    var r := ApplyStrategy(g, m).0;
    var w, x := BlockProgressWitness(g, m);
    BlockExtends(g, m);
    assert r.cells[w] == BlockedCell(g, w, m);
    assert m in r.cells[w].blocks;
    BlockedByItem(r, w, m, x);
    ExtendsShrinks(g, r, w, x);
  }

  /** A block item that makes progress names a cell and one of its
      available numbers. */
  lemma BlockProgressWitness(g: Game, m: Move) returns (w: nat, x: int)
    requires WellFormed(g) && m.Block? && MakesProgress(g, m)
    ensures w < |g.cells| && w in m.cells && x in Available(g, w) && x in m.values
  {
    var j :| 0 <= j < |g.cells| && j in m.cells && Overlap(Available(g, j), m.values);
    var i :| 0 <= i < |Available(g, j)| && Available(g, j)[i] in m.values;
    w, x := j, Available(g, j)[i];
  }

  lemma BlockedByItem(g: Game, w: nat, m: Move, x: int)
    requires WellFormed(g) && w < |g.cells| && m.Block? && m in g.cells[w].blocks && x in m.values
    ensures !Candidate(g, w, x)
  {
    CandidateIff(g, w, x);
  }

  /** An item that makes progress and is applied without error lowers the
      measure. */
  lemma ProgressShrinks(g: Game, m: Move)
    requires WellFormed(g) && MakesProgress(g, m) && ApplyStrategy(g, m).1 == None
    ensures Open(ApplyStrategy(g, m).0) < Open(g)
  {
    if m.Set? {
      SetShrinks(g, m);
    } else {
      BlockShrinks(g, m);
    }
  }

  /** A move that makes progress and applies without error keeps every
      value and every block item. */
  lemma ProgressExtends(g: Game, m: Move)
    requires WellFormed(g) && MakesProgress(g, m) && ApplyStrategy(g, m).1 == None
    ensures Extends(g, ApplyStrategy(g, m).0)
  {
    if m.Set? {
      SetExtends(g, m);
    } else {
      BlockExtends(g, m);
    }
  }

  /** A set item on an open cell keeps every value and every block item. */
  lemma SetExtends(g: Game, m: Move)
    requires WellFormed(g) && m.Set? && MakesProgress(g, m) && ApplyStrategy(g, m).1 == None
    ensures Extends(g, ApplyStrategy(g, m).0)
  {
    var r := ApplyStrategy(g, m).0;
    forall j | 0 <= j < |g.cells|
      ensures r.cells[j].blocks == g.cells[j].blocks
      ensures g.cells[j].value.Some? ==> r.cells[j].value == g.cells[j].value
    {
      if j == m.cell {
        var c := SetCellValue(g.cells[j], Some(m.value), Some(MethodOf(m)));
        assert r.cells[j] == c.value;
      } else {
        assert r.cells[j] == g.cells[j];
      }
    }
  }

  lemma ExtendsTransitive(a: Game, b: Game, c: Game)
    requires Extends(a, b) && Extends(b, c)
    ensures Extends(a, c)
  {
  }
}

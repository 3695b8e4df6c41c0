/** The candidate logic of src/state/sudoku.ts: a cell's invalid, blocked and
    available numbers, cell and game validity, and a group's available
    numbers and candidate-to-cells tables. */
module Candidates {
  import opened Wrappers
  import opened Collections
  import opened Geometry
  import opened SudokuUtils
  import opened Types
  import opened Board
  import opened Rules

  /* -------------------------------- Cell -------------------------------- */

  /** `IInvalidValueMap` as `Cell.invalidValues` builds it: each rule that
      reports a value appends its own reason list to the value's entry. */
  type InvalidValueMap = map<int, seq<seq<InvalidReason>>>

  function MergeRule(prev: InvalidValueMap, res: InvalidMap): (r: InvalidValueMap)
    ensures forall v :: v in r <==> v in prev || v in res
  {
    map v | v in prev.Keys + res.Keys :: (if v in prev then prev[v] else []) + (if v in res then [res[v]] else [])
  }

  function InvalidFrom(g: Game, i: nat, rules: seq<Rule>, prev: InvalidValueMap): (r: InvalidValueMap)
    requires g.k > 0
    decreases |rules|
  {
    if |rules| == 0 then prev else InvalidFrom(g, i, rules[1..], MergeRule(prev, ApplyRule(rules[0], g, i)))
  }

  /** `Cell.invalidValues`: the values the game's rules report for the cell,
      each with the one (empty) reason list of the one rule. */
  function InvalidValues(g: Game, i: nat): (r: InvalidValueMap)
    requires g.k > 0
    ensures forall v :: v in r <==> v in SudokuRule(g, i)
    ensures forall v :: v in r ==> r[v] == [[]]
  {
    InvalidOfOneRule(g, i);
    InvalidFrom(g, i, GameRules, map[])
  }

  /** With the one rule, the merged map lists each value the rule reports
      with that rule's reason list. */
  lemma InvalidOfOneRule(g: Game, i: nat)
    requires g.k > 0
    ensures InvalidFrom(g, i, GameRules, map[]) == MergeRule(map[], SudokuRule(g, i))
    ensures forall v :: v in MergeRule(map[], SudokuRule(g, i)) <==> v in SudokuRule(g, i)
    ensures forall v :: v in MergeRule(map[], SudokuRule(g, i)) ==> MergeRule(map[], SudokuRule(g, i))[v] == [[]]
  {
    var res := SudokuRule(g, i);
    assert GameRules[1..] == [];
    assert ApplyRule(GameRules[0], g, i) == res;
    var m := MergeRule(map[], res);
    assert InvalidFrom(g, i, GameRules, map[]) == InvalidFrom(g, i, [], m);
    MergeIntoEmpty(res);
    forall v | v in m
      ensures m[v] == [[]]
    {
      assert res[v] == [];
    }
  }

  /** Merging into the empty map wraps each reason list of the rule. */
  lemma MergeIntoEmpty(res: InvalidMap)
    ensures forall v :: v in MergeRule(map[], res) ==> v in res && MergeRule(map[], res)[v] == [res[v]]
  {
    var m := MergeRule(map[], res);
    forall v | v in m
      ensures v in res && m[v] == [res[v]]
    {
      assert m[v] == [] + [res[v]];
    }
  }

  type BlockedValueMap = map<int, seq<BlockedReason>>

  function AddBlocked(prev: BlockedValueMap, values: seq<int>): (r: BlockedValueMap)
    ensures forall v :: v in r <==> v in prev || v in values
    ensures forall v :: v in prev ==> r[v] == prev[v]
    ensures forall v :: v in r && v !in prev ==> r[v] == []
    decreases |values|
  {
    if |values| == 0 then prev
    else AddBlocked(if values[0] in prev then prev else prev[values[0] := []], values[1..])
  }

  function BlockedFrom(blocks: seq<Move>, prev: BlockedValueMap): (r: BlockedValueMap)
    ensures forall v :: v in r <==> v in prev || exists m :: m in blocks && m.Block? && v in m.values
    ensures forall v :: v in prev ==> r[v] == prev[v]
    ensures forall v :: v in r && v !in prev ==> r[v] == []
    decreases |blocks|
  {
    if |blocks| == 0 then prev
    else
      var m := blocks[0];
      var r := BlockedFrom(blocks[1..], if m.Block? then AddBlocked(prev, m.values) else prev);
      assert forall x :: x in blocks ==> x == m || x in blocks[1..];
      r
  }

  /** `Cell.blockedValues`: the values of the cell's block items, each with
      an empty reason list (the reasons are never recorded). */
  function BlockedValues(c: Cell): (r: BlockedValueMap)
    ensures forall v :: v in r <==> exists m :: m in c.blocks && m.Block? && v in m.values
    ensures forall v :: v in r ==> r[v] == []
  {
    BlockedFrom(c.blocks, map[])
  }

  /** The test `availableNumbers` applies to each possible value: neither
      invalid nor blocked. */
  predicate Candidate(g: Game, i: nat, v: int)
    requires WellFormed(g) && i < |g.cells|
  {
    OnBoardPositive(g.k, i);
    v !in InvalidValues(g, i) && v !in BlockedValues(g.cells[i])
  }

  function CandidateOf(g: Game, i: nat): int -> bool
    requires WellFormed(g) && i < |g.cells|
  {
    v => Candidate(g, i, v)
  }

  /** `Cell.availableNumbers`: nothing for a cell with a value, otherwise
      the possible values that are neither invalid nor blocked, ascending.
      Indices off the board have no candidates. */
  function Available(g: Game, i: nat): (r: seq<int>)
    requires WellFormed(g)
    ensures i >= |g.cells| || g.cells[i].value.Some? ==> r == []
    ensures Increasing(r)
    ensures forall v :: v in r ==> 1 <= v <= Size(g)
  {
    if i >= |g.cells| || g.cells[i].value.Some? then []
    else
      FilterIncreasing(PossibleValues(g), CandidateOf(g, i));
      Filter(PossibleValues(g), CandidateOf(g, i))
  }

  /** An empty cell's available numbers are exactly its candidates. */
  lemma AvailableMembers(g: Game, i: nat, v: int)
    requires WellFormed(g) && i < |g.cells| && g.cells[i].value.None?
    ensures v in Available(g, i) <==> 1 <= v <= Size(g) && Candidate(g, i, v)
  {
  }

  /** A cell's candidates are the possible values that no cell it sees holds
      and that no block item removed. */
  lemma CandidateIff(g: Game, i: nat, v: int)
    requires WellFormed(g) && i < |g.cells|
    ensures g.k > 0
    ensures Candidate(g, i, v) <==> !Seen(g, i, v) && v !in BlockedValues(g.cells[i])
  {
    SudokuSees(g, i, v);
  }

  /** `Cell.isValid`: the cell has no value or its value is not invalid. */
  predicate CellIsValid(g: Game, i: nat)
    requires WellFormed(g) && i < |g.cells|
  {
    OnBoardPositive(g.k, i);
    g.cells[i].value.None? || g.cells[i].value.value !in InvalidValues(g, i)
  }

  lemma CellIsValidIff(g: Game, i: nat)
    requires WellFormed(g) && i < |g.cells|
    ensures g.k > 0
    ensures CellIsValid(g, i) <==> g.cells[i].value.None? || !Seen(g, i, g.cells[i].value.value)
  {
    if g.cells[i].value.Some? {
      SudokuSees(g, i, g.cells[i].value.value);
    }
  }

  /* -------------------------------- Game -------------------------------- */

  /** `Game.isPossible`: every cell has a (truthy) value or a candidate. */
  predicate IsPossible(g: Game)
    requires WellFormed(g)
  {
    forall i :: 0 <= i < |g.cells| ==> Truthy(g.cells[i].value) || |Available(g, i)| > 0
  }

  /** `Game.isValid`: possible, and every cell valid. */
  predicate IsValid(g: Game)
    requires WellFormed(g)
  {
    IsPossible(g) && forall i :: 0 <= i < |g.cells| ==> CellIsValid(g, i)
  }

  /** `Game.isSolved`: every cell has a truthy value and is valid. */
  predicate IsSolved(g: Game)
    requires WellFormed(g)
  {
    forall i :: 0 <= i < |g.cells| ==> Truthy(g.cells[i].value) && CellIsValid(g, i)
  }

  lemma SolvedIsValid(g: Game)
    requires WellFormed(g) && IsSolved(g)
    ensures IsValid(g)
  {
  }

  /** A solved board has no two cells sharing a box, a row or a column with
      the same value. */
  lemma SolvedHasNoConflicts(g: Game, i: nat, j: nat)
    requires WellFormed(g) && IsSolved(g)
    requires i < |g.cells| && j < |g.cells| && i != j
    ensures g.k > 0
    ensures SameUnit(g.k, i, j) ==> g.cells[i].value != g.cells[j].value
  {
    CellIsValidIff(g, i);
  }

  /* -------------------------------- Group -------------------------------- */

  function MissingFrom(g: Game, grp: Group): int -> bool
  {
    v => forall c :: c in grp.cells ==> ValueAt(g, c) != Some(v)
  }

  /** `Group.availableNumbers`: the possible values no cell of the group
      holds, ascending. */
  function GroupAvailable(g: Game, grp: Group): (r: seq<int>)
    ensures forall v :: v in r <==> 1 <= v <= Size(g) && forall c :: c in grp.cells ==> ValueAt(g, c) != Some(v)
    ensures Increasing(r)
  {
    FilterIncreasing(PossibleValues(g), MissingFrom(g, grp));
    Filter(PossibleValues(g), MissingFrom(g, grp))
  }

  /** A candidate of a cell is missing from every group of the cell. */
  lemma CandidateIsMissing(g: Game, grp: Group, i: nat, v: int)
    requires WellFormed(g) && g.k > 0 && grp in CellGroups(g.k, i)
    requires v in Available(g, i)
    ensures v in GroupAvailable(g, grp)
  {
    assert i < |g.cells|;
    CandidateIff(g, i, v);
    forall c | c in grp.cells
      ensures ValueAt(g, c) != Some(v)
    {
      if c != i {
        CellGroupsHold(g.k, i, c);
      }
    }
  }

  /** `!c.value`: the cell has no truthy value. */
  function IsOpen(g: Game): nat -> bool
  {
    (c: nat) => !Truthy(ValueAt(g, c))
  }

  /** `c => c.availableNumbers` over the board. */
  function AvailOf(g: Game): nat -> seq<int>
    requires WellFormed(g)
  {
    (c: nat) => Available(g, c)
  }

  function Holding(avail: nat -> seq<int>, v: int): nat -> bool
  {
    (c: nat) => v in avail(c)
  }

  /** The cells having `v` among their available numbers. */
  function HasCandidate(g: Game, v: int): nat -> bool
    requires WellFormed(g)
  {
    Holding(AvailOf(g), v)
  }

  /** `IPossibleToCellsMap`: candidate value to the cells that have it. */
  type CellsMap = map<int, seq<nat>>

  /** One cell of the reduce: the cell is pushed onto the entry of each of
      its candidates, the entry being created when missing. */
  function AddCell(m: CellsMap, c: nat, avail: seq<int>): (r: CellsMap)
    requires Increasing(avail)
    ensures forall v :: v in r <==> v in m || v in avail
    ensures forall v :: v in r ==> r[v] == (if v in m then m[v] else []) + (if v in avail then [c] else [])
    decreases |avail|
  {
    if |avail| == 0 then m
    else
      var a := avail[0];
      assert a !in avail[1..];
      AddCell(m[a := (if a in m then m[a] else []) + [c]], c, avail[1..])
  }

  /** The reduce over the group's open cells. */
  function CellsFold(avail: nat -> seq<int>, m: CellsMap, cells: seq<nat>): (r: CellsMap)
    requires forall c :: Increasing(avail(c))
    ensures forall v :: v in r <==> v in m || exists c :: c in cells && v in avail(c)
    decreases |cells|
  {
    if |cells| == 0 then m
    else
      var r := CellsFold(avail, AddCell(m, cells[0], avail(cells[0])), cells[1..]);
      assert forall x :: x in cells ==> x == cells[0] || x in cells[1..];
      r
  }

  /** Each entry of the fold lists, after what `m` had, the cells having the
      value, in order. */
  lemma {:induction false} CellsFoldEntry(avail: nat -> seq<int>, m: CellsMap, cells: seq<nat>, v: int)
    requires forall c :: Increasing(avail(c))
    requires v in CellsFold(avail, m, cells)
    ensures CellsFold(avail, m, cells)[v] == (if v in m then m[v] else []) + Filter(cells, Holding(avail, v))
    decreases |cells|
  {
    if |cells| > 0 {
      var c := cells[0];
      var m' := AddCell(m, c, avail(c));
      CellsFoldEntry(avail, m', cells[1..], v);
      var here := if v in avail(c) then [c] else [];
      var before := if v in m then m[v] else [];
      var rest := Filter(cells[1..], Holding(avail, v));
      assert (if v in m' then m'[v] else []) == before + here;
      assert Filter(cells, Holding(avail, v)) == here + rest;
      AppendAssoc(before, here, rest);
    }
  }

  /** The reduce over a group's open cells. */
  function GroupFold(g: Game, grp: Group): CellsMap
    requires WellFormed(g)
  {
    CellsFold(AvailOf(g), map[], Filter(grp.cells, IsOpen(g)))
  }

  /** Every key of the reduce comes from a cell of the group. */
  lemma GroupFoldKeyFrom(g: Game, grp: Group, v: int)
    requires WellFormed(g) && v in GroupFold(g, grp)
    ensures exists c :: c in grp.cells && v in Available(g, c)
  {
    var open := Filter(grp.cells, IsOpen(g));
    var c :| c in open && v in AvailOf(g)(c);
    assert c in grp.cells && v in Available(g, c);
  }

  /** Every available number of a cell of the group is a key. */
  lemma GroupFoldKeyOf(g: Game, grp: Group, c: nat, v: int)
    requires WellFormed(g) && c in grp.cells && v in Available(g, c)
    ensures v in GroupFold(g, grp)
  {
    var open := Filter(grp.cells, IsOpen(g));
    assert c in open && v in AvailOf(g)(c);
  }

  lemma GroupFoldKeys(g: Game, grp: Group)
    requires WellFormed(g)
    ensures forall v :: v in GroupFold(g, grp) <==> exists c :: c in grp.cells && v in Available(g, c)
  {
    forall v | v in GroupFold(g, grp)
      ensures exists c :: c in grp.cells && v in Available(g, c)
    {
      GroupFoldKeyFrom(g, grp, v);
    }
    forall v, c | c in grp.cells && v in Available(g, c)
      ensures v in GroupFold(g, grp)
    {
      GroupFoldKeyOf(g, grp, c, v);
    }
  }

  lemma GroupFoldEntry(g: Game, grp: Group, v: int)
    requires WellFormed(g) && v in GroupFold(g, grp)
    ensures GroupFold(g, grp)[v] == Filter(grp.cells, HasCandidate(g, v)) && |GroupFold(g, grp)[v]| > 0
  {
    var open := Filter(grp.cells, IsOpen(g));
    var r := GroupFold(g, grp);
    CellsFoldEntry(AvailOf(g), map[], open, v);
    FilterTwice(grp.cells, IsOpen(g), HasCandidate(g, v));
    var c :| c in open && v in AvailOf(g)(c);
    assert c in r[v];
  }

  lemma GroupFoldSpec(g: Game, grp: Group)
    requires WellFormed(g)
    ensures forall v :: v in GroupFold(g, grp) <==> exists c :: c in grp.cells && v in Available(g, c)
    ensures forall v :: v in GroupFold(g, grp) ==>
      GroupFold(g, grp)[v] == Filter(grp.cells, HasCandidate(g, v)) && |GroupFold(g, grp)[v]| > 0
    ensures forall v :: v in GroupFold(g, grp) ==> 1 <= v <= Size(g)
  {
    GroupFoldKeys(g, grp);
    forall v | v in GroupFold(g, grp)
      ensures GroupFold(g, grp)[v] == Filter(grp.cells, HasCandidate(g, v)) && |GroupFold(g, grp)[v]| > 0
    {
      GroupFoldEntry(g, grp, v);
    }
  }

  /** `Group.possibleToCellsMap`: each value that is a candidate somewhere
      in the group, to the group's cells having it, in group order. */
  function PossibleToCellsMap(g: Game, grp: Group): (r: CellsMap)
    requires WellFormed(g)
    ensures forall v :: v in r <==> exists c :: c in grp.cells && v in Available(g, c)
    ensures forall v :: v in r ==> r[v] == Filter(grp.cells, HasCandidate(g, v)) && |r[v]| > 0
    ensures forall v :: v in r ==> 1 <= v <= Size(g)
  {
    GroupFoldSpec(g, grp);
    GroupFold(g, grp)
  }

  /** An element of `IPossibleToCellsArray`. */
  datatype Entry = Entry(n: int, matching: seq<nat>)

  function Matching(e: Entry): nat
  {
    |e.matching|
  }

  function EntriesFrom(m: CellsMap, ns: seq<int>): (r: seq<Entry>)
    ensures forall e :: e in r <==> e.n in ns && e.n in m && e.matching == m[e.n]
    ensures Increasing(ns) ==> forall i, j :: 0 <= i < j < |r| ==> r[i].n < r[j].n
    decreases |ns|
  {
    if |ns| == 0 then []
    else
      var rest := EntriesFrom(m, ns[1..]);
      assert Increasing(ns) ==> forall e :: e in rest ==> ns[0] < e.n;
      if ns[0] in m then [Entry(ns[0], m[ns[0]])] + rest else rest
  }

  /** `Object.entries(possibleToCellsMap)`: integer keys come out ascending. */
  function AscendingEntries(g: Game, grp: Group): (r: seq<Entry>)
    requires WellFormed(g)
    ensures forall e :: e in r <==> e.n in PossibleToCellsMap(g, grp) && e.matching == PossibleToCellsMap(g, grp)[e.n]
    ensures forall i, j :: 0 <= i < j < |r| ==> r[i].n < r[j].n
  {
    EntriesFrom(PossibleToCellsMap(g, grp), PossibleValues(g))
  }

  /** `Group.possibleToCellsArray`: the map's entries (keys read back with
      `parseInt`) sorted, stably, by how many cells have the value. */
  function PossibleToCellsArray(g: Game, grp: Group): (r: seq<Entry>)
    requires WellFormed(g)
    ensures multiset(r) == multiset(AscendingEntries(g, grp))
    ensures SortedBy(r, Matching)
    ensures forall c :: Filter(r, KeyIs(Matching, c)) == Filter(AscendingEntries(g, grp), KeyIs(Matching, c))
  {
    var entries := AscendingEntries(g, grp);
    forall c ensures Filter(StableSortBy(entries, Matching), KeyIs(Matching, c)) == Filter(entries, KeyIs(Matching, c)) {
      StableSortKeepsTies(entries, Matching, c);
    }
    StableSortBy(entries, Matching)
  }

  /** Each entry of the array is a value with its non-empty list of cells. */
  lemma ArrayEntries(g: Game, grp: Group, e: Entry)
    requires WellFormed(g)
    ensures e in PossibleToCellsArray(g, grp) <==>
      1 <= e.n <= Size(g) && e.matching == Filter(grp.cells, HasCandidate(g, e.n)) && |e.matching| > 0
  {
    var r := PossibleToCellsArray(g, grp);
    assert e in r <==> e in multiset(r);
    assert e in AscendingEntries(g, grp) <==> e in multiset(AscendingEntries(g, grp));
    if 1 <= e.n <= Size(g) && e.matching == Filter(grp.cells, HasCandidate(g, e.n)) && |e.matching| > 0 {
      var c := e.matching[0];
      assert c in grp.cells && e.n in Available(g, c);
    }
  }
}

/** src/utils/sudoku/strategy.ts: the human solving techniques, each
    returning the first item it finds (or `null`), and `buildStrategyStep`,
    which tries them in a fixed order on a valid game. */
module Strategy {
  import opened Wrappers
  import opened Collections
  import opened Geometry
  import opened SudokuUtils
  import opened Types
  import opened Board
  import opened Candidates
  import opened Termination

  /** `game.groups`: boxes, then columns, then rows; a board without cells
      has none. */
  function BoardGroups(g: Game): seq<Group>
  {
    if g.k == 0 then [] else Groups(g.k)
  }

  lemma BoardGroupsOnBoard(g: Game, grp: Group, c: nat)
    requires WellFormed(g) && grp in BoardGroups(g) && c in grp.cells
    ensures c < |g.cells|
  {
    GroupCellsOnBoard(g.k, grp, c);
  }

  function CellIndices(g: Game): (r: seq<nat>)
    ensures |r| == |g.cells| && forall i :: 0 <= i < |r| ==> r[i] == i
  {
    seq(|g.cells|, i requires 0 <= i => i as nat)
  }

  /* ------------------------------ solvedSquare ------------------------------ */

  /** The test on one cell, over any assignment of available numbers. */
  function SingleAt(avail: nat -> seq<int>): nat -> Option<Move>
  {
    (i: nat) =>
      var a := avail(i);
      if |a| == 1 then Some(Set(SetBySolvedSquare, i, a[0], SolvedSquareReason(i, a[0]))) else None
  }

  function SolvedSquareAt(g: Game): nat -> Option<Move>
    requires WellFormed(g)
  {
    SingleAt(AvailOf(g))
  }

  /** `solvedSquare`: the cells in order. */
  function SolvedSquare(g: Game): Option<Move>
    requires WellFormed(g)
  {
    FirstSome(CellIndices(g), SolvedSquareAt(g))
  }

  lemma {:induction false} SingleAtSpec(avail: nat -> seq<int>, xs: seq<nat>)
    requires forall i :: 0 <= i < |xs| ==> xs[i] == i
    ensures var r := FirstSome(xs, SingleAt(avail));
      && (r.None? <==> forall i :: 0 <= i < |xs| ==> |avail(i)| != 1)
      && (r.Some? ==>
            exists i :: 0 <= i < |xs| && |avail(i)| == 1 &&
              r.value == Set(SetBySolvedSquare, i, avail(i)[0], SolvedSquareReason(i, avail(i)[0])) &&
              forall j :: 0 <= j < i ==> |avail(j)| != 1)
  {
    var r := FirstSome(xs, SingleAt(avail));
    FirstSomeIndices(xs, SingleAt(avail));
    if r.None? {
      forall i | 0 <= i < |xs|
        ensures |avail(i)| != 1
      {
        assert SingleAt(avail)(i).None?;
      }
    } else {
      var i: nat :| i < |xs| && SingleAt(avail)(i) == r && forall j: nat :: j < i ==> SingleAt(avail)(j).None?;
      forall j | 0 <= j < i
        ensures |avail(j)| != 1
      {
        assert SingleAt(avail)(j).None?;
      }
    }
  }

  /** The cell the first item is about. */
  lemma SingleAtFirst(avail: nat -> seq<int>, xs: seq<nat>) returns (i: nat)
    requires forall i :: 0 <= i < |xs| ==> xs[i] == i
    requires FirstSome(xs, SingleAt(avail)).Some?
    ensures i < |xs| && |avail(i)| == 1
    ensures FirstSome(xs, SingleAt(avail)).value ==
      Set(SetBySolvedSquare, i, avail(i)[0], SolvedSquareReason(i, avail(i)[0]))
    ensures forall j :: 0 <= j < i ==> |avail(j)| != 1
  {
    SingleAtSpec(avail, xs);
    i :| 0 <= i < |xs| && |avail(i)| == 1 &&
      FirstSome(xs, SingleAt(avail)).value == Set(SetBySolvedSquare, i, avail(i)[0], SolvedSquareReason(i, avail(i)[0])) &&
      forall j :: 0 <= j < i ==> |avail(j)| != 1;
  }

  /** The first cell with exactly one available number is set to that
      number; there is no item exactly when no cell has exactly one. */
  lemma SolvedSquareSpec(g: Game)
    requires WellFormed(g)
    ensures var r := SolvedSquare(g);
      && (r.None? <==> forall i :: 0 <= i < |g.cells| ==> |Available(g, i)| != 1)
      && (r.Some? ==>
            exists i :: 0 <= i < |g.cells| && |Available(g, i)| == 1 &&
              r.value == Set(SetBySolvedSquare, i, Available(g, i)[0], SolvedSquareReason(i, Available(g, i)[0])) &&
              forall j :: 0 <= j < i ==> |Available(g, j)| != 1)
  {
    var avail := AvailOf(g);
    var r := SolvedSquare(g);
    SingleAtSpec(avail, CellIndices(g));
    if r.Some? {
      var i := SingleAtFirst(avail, CellIndices(g));
      var a := Available(g, i);
      assert avail(i) == a;
      assert r.value == Set(SetBySolvedSquare, i, a[0], SolvedSquareReason(i, a[0]));
      forall j | 0 <= j < i
        ensures |Available(g, j)| != 1
      {
        assert avail(j) == Available(g, j);
      }
    } else {
      forall i | 0 <= i < |g.cells|
        ensures |Available(g, i)| != 1
      {
        assert avail(i) == Available(g, i);
      }
    }
  }

  /* ------------------------------ hiddenSingle ------------------------------ */

  /** One turn of the loop over the possible numbers in one group. */
  function HiddenSingleOn(g: Game, grp: Group, p: int): Option<Move>
    requires WellFormed(g)
  {
    var cs := Filter(grp.cells, HasCandidate(g, p));
    if |cs| == 1 then Some(Set(SetByHiddenSingle, cs[0], p, HiddenSingleReason(cs[0], p))) else None
  }

  function HiddenSingleAt(g: Game, grp: Group): int -> Option<Move>
    requires WellFormed(g)
  {
    p => HiddenSingleOn(g, grp, p)
  }

  /** The loop over the possible numbers in one group. */
  function HiddenSingleGroup(g: Game, grp: Group): Option<Move>
    requires WellFormed(g)
  {
    FirstSome(PossibleValues(g), HiddenSingleAt(g, grp))
  }

  function HiddenSingleIn(g: Game): Group -> Option<Move>
    requires WellFormed(g)
  {
    grp => HiddenSingleGroup(g, grp)
  }

  /** The number `p` can go in exactly one cell `c` of the group. */
  predicate OnlyPlace(g: Game, grp: Group, p: int, c: nat)
    requires WellFormed(g)
  {
    Filter(grp.cells, HasCandidate(g, p)) == [c]
  }

  /** A number gives an item exactly when one cell of the group can take
      it, and the item sets that cell to it. */
  lemma HiddenSingleOnSpec(g: Game, grp: Group, p: int)
    requires WellFormed(g)
    ensures HiddenSingleOn(g, grp, p).None? <==> |Filter(grp.cells, HasCandidate(g, p))| != 1
    ensures HiddenSingleOn(g, grp, p).Some? ==> var m := HiddenSingleOn(g, grp, p).value;
      OnlyPlace(g, grp, p, m.cell) && m == Set(SetByHiddenSingle, m.cell, p, HiddenSingleReason(m.cell, p))
  {
    var cs := Filter(grp.cells, HasCandidate(g, p));
    if |cs| == 1 {
      assert cs == [cs[0]];
    }
  }

  lemma HiddenSingleGroupSpec(g: Game, grp: Group)
    requires WellFormed(g)
    ensures HiddenSingleGroup(g, grp).None? <==>
      forall p :: p in PossibleValues(g) ==> |Filter(grp.cells, HasCandidate(g, p))| != 1
    ensures HiddenSingleGroup(g, grp).Some? ==> var m := HiddenSingleGroup(g, grp).value;
      && m.Set?
      && exists p :: p in PossibleValues(g) && OnlyPlace(g, grp, p, m.cell) &&
           m == Set(SetByHiddenSingle, m.cell, p, HiddenSingleReason(m.cell, p))
  {
    var pv := PossibleValues(g);
    var f := HiddenSingleAt(g, grp);
    var r := HiddenSingleGroup(g, grp);
    if r.Some? {
      var i := FirstSomeWitness(pv, f);
      assert f(pv[i]) == HiddenSingleOn(g, grp, pv[i]);
      HiddenSingleOnSpec(g, grp, pv[i]);
      assert pv[i] in pv;
    } else {
      FirstSomeSpec(pv, f);
      forall p | p in pv
        ensures |Filter(grp.cells, HasCandidate(g, p))| != 1
      {
        var i :| 0 <= i < |pv| && pv[i] == p;
        assert f(pv[i]).None?;
        HiddenSingleOnSpec(g, grp, p);
      }
    }
  }

  /** `hiddenSingle`: the groups in order, each trying the possible
      numbers in order. */
  function HiddenSingle(g: Game): Option<Move>
    requires WellFormed(g)
  {
    FirstSome(BoardGroups(g), HiddenSingleIn(g))
  }

  /** The item sets the only cell of `grp` that can take `p` to `p`. */
  predicate HiddenSingleItem(g: Game, grp: Group, p: int, m: Move)
    requires WellFormed(g)
  {
    && m.Set? && grp in BoardGroups(g) && p in PossibleValues(g) && OnlyPlace(g, grp, p, m.cell)
    && m == Set(SetByHiddenSingle, m.cell, p, HiddenSingleReason(m.cell, p))
  }

  ghost predicate IsHiddenSingle(g: Game, m: Move)
    requires WellFormed(g)
  {
    exists grp, p :: HiddenSingleItem(g, grp, p, m)
  }

  /** A number that only one cell of a group can take is set there; there
      is no item exactly when no group has such a number. */
  lemma HiddenSingleSpec(g: Game)
    requires WellFormed(g)
    ensures HiddenSingle(g).None? <==> forall grp, p :: grp in BoardGroups(g) && p in PossibleValues(g) ==>
      |Filter(grp.cells, HasCandidate(g, p))| != 1
    ensures HiddenSingle(g).Some? ==> IsHiddenSingle(g, HiddenSingle(g).value)
  {
    var gs := BoardGroups(g);
    var f := HiddenSingleIn(g);
    var r := HiddenSingle(g);
    if r.Some? {
      var i := FirstSomeWitness(gs, f);
      assert f(gs[i]) == HiddenSingleGroup(g, gs[i]);
      HiddenSingleGroupSpec(g, gs[i]);
      assert gs[i] in gs;
      var p :| p in PossibleValues(g) && OnlyPlace(g, gs[i], p, r.value.cell) &&
        r.value == Set(SetByHiddenSingle, r.value.cell, p, HiddenSingleReason(r.value.cell, p));
      assert HiddenSingleItem(g, gs[i], p, r.value);
    } else {
      FirstSomeSpec(gs, f);
      forall grp, p | grp in gs && p in PossibleValues(g)
        ensures |Filter(grp.cells, HasCandidate(g, p))| != 1
      {
        var i :| 0 <= i < |gs| && gs[i] == grp;
        assert f(gs[i]).None?;
        HiddenSingleGroupSpec(g, grp);
      }
    }
  }

  /* ------------------------------- nakedSets ------------------------------- */

  function NotAmong(xs: seq<nat>): nat -> bool
  {
    c => c !in xs
  }

  function OverlapsWith(g: Game, values: seq<int>): nat -> bool
    requires WellFormed(g)
  {
    (c: nat) => Overlap(Available(g, c), values)
  }

  /** The group's cells without a value, fewest available numbers first;
      the sort is stable. */
  function NakedCells(g: Game, grp: Group): seq<nat>
    requires WellFormed(g)
  {
    StableSortBy(Filter(grp.cells, IsOpen(g)), CountOf(g))
  }

  function NakedSetFor(g: Game, grp: Group): ((seq<int>, seq<nat>)) -> Option<Move>
    requires WellFormed(g)
  {
    (pair: (seq<int>, seq<nat>)) =>
      var toAffect := Filter(NakedCells(g, grp), NotAmong(pair.1));
      if |Filter(toAffect, OverlapsWith(g, pair.0))| > 0 then
        Some(Block(BlockByNakedSet, toAffect, pair.0, NakedSetReason(grp, pair.0, pair.1)))
      else None
  }

  function NakedSetIn(g: Game): Group -> Option<Move>
    requires WellFormed(g)
  {
    grp => FirstSome(FindCoveredUnions(AvailOf(g), NakedCells(g, grp), [], []), NakedSetFor(g, grp))
  }

  /** `nakedSets`: the groups in order, each trying its covered unions in
      the order `findCoveredUnions` lists them. */
  function NakedSets(g: Game): Option<Move>
    requires WellFormed(g)
  {
    FirstSome(BoardGroups(g), NakedSetIn(g))
  }

  /** A naked set of a group: as many open cells of the group as there are
      numbers in `union`, whose available numbers together are exactly the
      numbers of `union`. */
  predicate IsNakedSet(g: Game, grp: Group, union: seq<int>, covered: seq<nat>)
    requires WellFormed(g)
  {
    && |union| == |covered| > 0 && NoDup(union)
    && (forall c :: c in covered ==> c in grp.cells && !Truthy(ValueAt(g, c)))
    && (forall c, v :: c in covered && v in Available(g, c) ==> v in union)
    && (forall v :: v in union ==> exists c :: c in covered && v in Available(g, c))
  }

  lemma CoveringIsNakedSet(g: Game, grp: Group, pair: (seq<int>, seq<nat>))
    requires WellFormed(g)
    requires Covering(AvailOf(g), [], Init(NakedCells(g, grp)), pair)
    ensures IsNakedSet(g, grp, pair.0, pair.1)
  {
    var (union, covered) := pair;
    var cells := NakedCells(g, grp);
    var open := Filter(grp.cells, IsOpen(g));
    assert covered[0..] == covered;
    forall c | c in covered
      ensures c in grp.cells && !Truthy(ValueAt(g, c))
    {
      SubseqMembers(covered, Init(cells), c);
      assert c in cells;
      assert c in multiset(cells);
      assert c in open;
    }
    forall v
      ensures v in union <==> exists c :: c in covered && v in Available(g, c)
    {
      UnionOverMembers(AvailOf(g), covered, v);
      assert v in union <==> v in Elems(union);
    }
  }

  /** The item blocks the naked set's numbers from the group's other open
      cells, and at least one of them loses an available number. */
  predicate NakedSetItem(g: Game, grp: Group, covered: seq<nat>, m: Move)
    requires WellFormed(g)
  {
    && m.Block?
    && IsNakedSet(g, grp, m.values, covered)
    && m == Block(BlockByNakedSet, Filter(NakedCells(g, grp), NotAmong(covered)), m.values, NakedSetReason(grp, m.values, covered))
    && exists c :: c in m.cells && Overlap(Available(g, c), m.values)
  }

  lemma NakedSetForSpec(g: Game, grp: Group, pair: (seq<int>, seq<nat>))
    requires WellFormed(g)
    requires Covering(AvailOf(g), [], Init(NakedCells(g, grp)), pair)
    requires NakedSetFor(g, grp)(pair).Some?
    ensures NakedSetItem(g, grp, pair.1, NakedSetFor(g, grp)(pair).value)
  {
    CoveringIsNakedSet(g, grp, pair);
    var toAffect := Filter(NakedCells(g, grp), NotAmong(pair.1));
    var hit := Filter(toAffect, OverlapsWith(g, pair.0));
    assert hit[0] in hit;
  }

  lemma NakedSetInSpec(g: Game, grp: Group)
    requires WellFormed(g)
    ensures NakedSetIn(g)(grp).Some? ==> exists covered :: NakedSetItem(g, grp, covered, NakedSetIn(g)(grp).value)
  {
    var pairs := FindCoveredUnions(AvailOf(g), NakedCells(g, grp), [], []);
    var r := FirstSome(pairs, NakedSetFor(g, grp));
    if r.Some? {
      var i := FirstSomeWitness(pairs, NakedSetFor(g, grp));
      NakedSetForSpec(g, grp, pairs[i]);
    }
  }

  /** A naked-set item: some group has a naked set, and the item blocks its
      numbers from the group's other open cells, at least one of which loses
      an available number. */
  lemma NakedSetsSpec(g: Game)
    requires WellFormed(g)
    ensures NakedSets(g).Some? ==>
      exists grp, covered :: grp in BoardGroups(g) && NakedSetItem(g, grp, covered, NakedSets(g).value)
  {
    var gs := BoardGroups(g);
    var r := NakedSets(g);
    if r.Some? {
      var i := FirstSomeWitness(gs, NakedSetIn(g));
      NakedSetInSpec(g, gs[i]);
    }
  }

  /* ------------------------------- hiddenSets ------------------------------- */

  /** What `arraysOverlap` compares in `hiddenSets`: numbers on one side and
      cell objects on the other. */
  datatype Ref = NumRef(n: int) | CellRef(c: nat)

  function NumRefs(xs: seq<int>): (r: seq<Ref>)
    ensures |r| == |xs| && forall i :: 0 <= i < |r| ==> r[i] == NumRef(xs[i])
  {
    seq(|xs|, i requires 0 <= i < |xs| => NumRef(xs[i]))
  }

  function CellRefs(xs: seq<nat>): (r: seq<Ref>)
    ensures |r| == |xs| && forall i :: 0 <= i < |r| ==> r[i] == CellRef(xs[i])
  {
    seq(|xs|, i requires 0 <= i < |xs| => CellRef(xs[i]))
  }

  function MatchingOf(e: Entry): seq<nat>
  {
    e.matching
  }

  function EntryNumbers(es: seq<Entry>): (r: seq<int>)
    ensures |r| == |es| && forall i :: 0 <= i < |r| ==> r[i] == es[i].n
  {
    seq(|es|, i requires 0 <= i < |es| => es[i].n)
  }

  function NotCoveredBy(covered: seq<Entry>): int -> bool
  {
    p => Find(covered, (cov: Entry) => cov.n == p).None?
  }

  function RefersToUnion(g: Game, unionArr: seq<nat>): nat -> bool
    requires WellFormed(g)
  {
    (c: nat) => Overlap(NumRefs(Available(g, c)), CellRefs(unionArr))
  }

  function HiddenSetFor(g: Game, grp: Group): ((seq<nat>, seq<Entry>)) -> Option<Move>
    requires WellFormed(g)
  {
    (pair: (seq<nat>, seq<Entry>)) =>
      var unionArr := pair.0;
      var removals := Filter(PossibleValues(g), NotCoveredBy(pair.1));
      if |Filter(unionArr, RefersToUnion(g, unionArr))| > 0 then
        Some(Block(BlockByHiddenSet, grp.cells, removals, HiddenSetReason(grp, unionArr, EntryNumbers(pair.1))))
      else None
  }

  function HiddenSetIn(g: Game): Group -> Option<Move>
    requires WellFormed(g)
  {
    grp => FirstSome(FindCoveredUnions(MatchingOf, PossibleToCellsArray(g, grp), [], []), HiddenSetFor(g, grp))
  }

  /** `hiddenSets`: the groups in order, each trying the covered unions of
      its number-to-cells entries. */
  function HiddenSets(g: Game): Option<Move>
    requires WellFormed(g)
  {
    FirstSome(BoardGroups(g), HiddenSetIn(g))
  }

  /** A number is never one of the cell objects it is compared with. */
  lemma NumbersAreNotCells(a: seq<int>, b: seq<nat>)
    ensures !Overlap(NumRefs(a), CellRefs(b))
  {
    forall i | 0 <= i < |a|
      ensures NumRefs(a)[i] !in CellRefs(b)
    {
    }
  }

  /** No covered union of a group yields an item. */
  lemma HiddenSetForNone(g: Game, grp: Group, pair: (seq<nat>, seq<Entry>))
    requires WellFormed(g)
    ensures HiddenSetFor(g, grp)(pair) == None
  {
    var u := pair.0;
    forall c | c in u
      ensures !RefersToUnion(g, u)(c)
    {
      NumbersAreNotCells(Available(g, c), u);
    }
    FilterNone(u, RefersToUnion(g, u));
  }

  lemma HiddenSetInNone(g: Game, grp: Group)
    requires WellFormed(g)
    ensures HiddenSetIn(g)(grp) == None
  {
    var pairs := FindCoveredUnions(MatchingOf, PossibleToCellsArray(g, grp), [], []);
    forall i | 0 <= i < |pairs|
      ensures HiddenSetFor(g, grp)(pairs[i]) == None
    {
      HiddenSetForNone(g, grp, pairs[i]);
    }
    FirstSomeSpec(pairs, HiddenSetFor(g, grp));
  }

  /** `hiddenSets` never returns an item: its overlap test compares each
      cell's available numbers with the union's cells. */
  lemma HiddenSetsNeverFire(g: Game)
    requires WellFormed(g)
    ensures HiddenSets(g) == None
  {
    var gs := BoardGroups(g);
    forall i | 0 <= i < |gs|
      ensures HiddenSetIn(g)(gs[i]) == None
    {
      HiddenSetInNone(g, gs[i]);
    }
    FirstSomeSpec(gs, HiddenSetIn(g));
  }

  /* ------------------------------ pointingPairs ------------------------------ */

  /** The groups of the first matching cell, other than `grp`, that every
      matching cell also belongs to. */
  function SharedGroups(g: Game, grp: Group, e: Entry): seq<Group>
    requires g.k > 0 && |e.matching| > 0
  {
    Filter(CellGroups(g.k, e.matching[0]),
           (ag: Group) => ag != grp && forall c :: c in e.matching ==> ag in CellGroups(g.k, c))
  }

  function PointingFor(g: Game, grp: Group, e: Entry): Group -> Option<Move>
    requires WellFormed(g)
  {
    (ag: Group) =>
      var toAffect := Filter(ag.cells, NotAmong(e.matching));
      if |Filter(toAffect, HasCandidate(g, e.n))| > 0 then
        Some(Block(BlockByPointingPair, toAffect, [e.n], PointingPairReason(grp, ag, e.matching, e.n)))
      else None
  }

  /** One entry of the group's number-to-cells array.  Its cell list is
      never empty (`ArrayEntries`), so the first guard is never taken. */
  function PointingAt(g: Game, grp: Group): Entry -> Option<Move>
    requires WellFormed(g)
  {
    (e: Entry) =>
      if g.k == 0 || |e.matching| == 0 then None
      else FirstSome(SharedGroups(g, grp, e), PointingFor(g, grp, e))
  }

  function PointingIn(g: Game): Group -> Option<Move>
    requires WellFormed(g)
  {
    grp => FirstSome(PossibleToCellsArray(g, grp), PointingAt(g, grp))
  }

  /** `pointingPairs`: the groups in order, each trying its entries fewest
      cells first, each trying the shared groups in the first cell's
      group order. */
  function PointingPairs(g: Game): Option<Move>
    requires WellFormed(g)
  {
    FirstSome(BoardGroups(g), PointingIn(g))
  }

  /** Every cell of `grp` that can take `n` lies in the other group `ag`, and
      the item blocks `n` from the rest of `ag`, at least one cell of which
      loses it. */
  predicate PointingItem(g: Game, grp: Group, ag: Group, n: int, m: Move)
    requires WellFormed(g)
  {
    var matching := Filter(grp.cells, HasCandidate(g, n));
    && ag in BoardGroups(g) && ag != grp && |matching| > 0
    && (forall c :: c in grp.cells && n in Available(g, c) ==> c in ag.cells)
    && m == Block(BlockByPointingPair, Filter(ag.cells, NotAmong(matching)), [n], PointingPairReason(grp, ag, matching, n))
    && exists c :: c in m.cells && n in Available(g, c)
  }

  /** A shared group is a group of the board holding every matching cell. */
  lemma SharedGroupHolds(g: Game, grp: Group, e: Entry, ag: Group)
    requires g.k > 0 && |e.matching| > 0 && ag in SharedGroups(g, grp, e)
    ensures ag in Groups(g.k) && ag != grp
    ensures forall c :: c in e.matching ==> c in ag.cells
  {
    CellGroupsMembers(g.k, e.matching[0]);
    forall c | c in e.matching
      ensures c in ag.cells
    {
      CellGroupsMembers(g.k, c);
    }
  }

  lemma PointingForSpec(g: Game, grp: Group, e: Entry, ag: Group)
    requires WellFormed(g) && g.k > 0
    requires e.matching == Filter(grp.cells, HasCandidate(g, e.n)) && |e.matching| > 0
    requires ag in Groups(g.k) && ag != grp && forall c :: c in e.matching ==> c in ag.cells
    requires PointingFor(g, grp, e)(ag).Some?
    ensures PointingItem(g, grp, ag, e.n, PointingFor(g, grp, e)(ag).value)
  {
    forall c | c in grp.cells && e.n in Available(g, c)
      ensures c in ag.cells
    {
      assert HasCandidate(g, e.n)(c);
      assert c in e.matching;
    }
    var toAffect := Filter(ag.cells, NotAmong(e.matching));
    var hit := Filter(toAffect, HasCandidate(g, e.n));
    assert hit[0] in hit;
  }

  lemma PointingAtSpec(g: Game, grp: Group, e: Entry)
    requires WellFormed(g)
    requires e.matching == Filter(grp.cells, HasCandidate(g, e.n)) && |e.matching| > 0
    ensures PointingAt(g, grp)(e).Some? ==> exists ag :: PointingItem(g, grp, ag, e.n, PointingAt(g, grp)(e).value)
  {
    if PointingAt(g, grp)(e).Some? {
      var ags := SharedGroups(g, grp, e);
      var j := FirstSomeWitness(ags, PointingFor(g, grp, e));
      SharedGroupHolds(g, grp, e, ags[j]);
      PointingForSpec(g, grp, e, ags[j]);
    }
  }

  lemma PointingInSpec(g: Game, grp: Group)
    requires WellFormed(g)
    ensures PointingIn(g)(grp).Some? ==> exists ag, n :: PointingItem(g, grp, ag, n, PointingIn(g)(grp).value)
  {
    var es := PossibleToCellsArray(g, grp);
    var r := FirstSome(es, PointingAt(g, grp));
    if r.Some? {
      var i := FirstSomeWitness(es, PointingAt(g, grp));
      ArrayEntries(g, grp, es[i]);
      PointingAtSpec(g, grp, es[i]);
    }
  }

  /** A pointing-pair item: the cells of some group that can take a number
      all lie in a second group, from whose other cells it blocks the
      number. */
  lemma PointingPairsSpec(g: Game)
    requires WellFormed(g)
    ensures PointingPairs(g).Some? ==>
      exists grp, ag, n :: grp in BoardGroups(g) && PointingItem(g, grp, ag, n, PointingPairs(g).value)
  {
    var gs := BoardGroups(g);
    var r := PointingPairs(g);
    if r.Some? {
      var i := FirstSomeWitness(gs, PointingIn(g));
      PointingInSpec(g, gs[i]);
    }
  }

  /* ---------------------------------- xWing ---------------------------------- */

  /** The group has exactly two cells that can take `p`. */
  function HasPair(g: Game, p: int): Group -> bool
    requires WellFormed(g)
  {
    (grp: Group) => var m := PossibleToCellsMap(g, grp); p in m && |m[p]| == 2
  }

  function KindIsOf(kind: Kind): Group -> bool
  {
    (grp: Group) => grp.kind == kind
  }

  /** The reduce building `typeToCandidatesMap`: a group is pushed onto its
      kind's list, the list being created (and the kind appended to the key
      order) on the kind's first appearance. */
  function GroupByKind(cands: seq<Group>, keys: seq<Kind>, m: map<Kind, seq<Group>>): (r: (seq<Kind>, map<Kind, seq<Group>>))
    requires forall kd :: kd in m <==> kd in keys
    ensures forall kd :: kd in r.1 <==> kd in r.0
    decreases |cands|
  {
    if |cands| == 0 then (keys, m)
    else
      var c := cands[0];
      if c.kind in m then GroupByKind(cands[1..], keys, m[c.kind := m[c.kind] + [c]])
      else GroupByKind(cands[1..], keys + [c.kind], m[c.kind := [c]])
  }

  /** Each kind's list is the one it started with followed by the
      candidates of that kind, in order. */
  lemma {:induction false} GroupByKindEntry(cands: seq<Group>, keys: seq<Kind>, m: map<Kind, seq<Group>>, kd: Kind)
    requires forall kd :: kd in m <==> kd in keys
    requires kd in GroupByKind(cands, keys, m).1
    ensures GroupByKind(cands, keys, m).1[kd] == (if kd in m then m[kd] else []) + Filter(cands, KindIsOf(kd))
    decreases |cands|
  {
    if |cands| > 0 {
      var c := cands[0];
      var m' := if c.kind in m then m[c.kind := m[c.kind] + [c]] else m[c.kind := [c]];
      var keys' := if c.kind in m then keys else keys + [c.kind];
      assert GroupByKind(cands, keys, m) == GroupByKind(cands[1..], keys', m');
      GroupByKindEntry(cands[1..], keys', m', kd);
      var before := if kd in m then m[kd] else [];
      var here := if c.kind == kd then [c] else [];
      var rest := Filter(cands[1..], KindIsOf(kd));
      assert (if kd in m' then m'[kd] else []) == before + here;
      assert Filter(cands, KindIsOf(kd)) == here + rest;
      AppendAssoc(before, here, rest);
    }
  }

  lemma GroupByKindEntries(cands: seq<Group>)
    ensures forall kd :: kd in GroupByKind(cands, [], map[]).1 ==>
      GroupByKind(cands, [], map[]).1[kd] == Filter(cands, KindIsOf(kd))
  {
    forall kd | kd in GroupByKind(cands, [], map[]).1
      ensures GroupByKind(cands, [], map[]).1[kd] == Filter(cands, KindIsOf(kd))
    {
      GroupByKindEntry(cands, [], map[], kd);
    }
  }

  /** `Object.entries(typeToCandidatesMap)`: each kind that occurs with its
      candidates, in order of first appearance. */
  function KindLists(cands: seq<Group>): (r: seq<(Kind, seq<Group>)>)
    ensures forall e :: e in r ==> e.1 == Filter(cands, KindIsOf(e.0))
  {
    GroupByKindEntries(cands);
    var grouped := GroupByKind(cands, [], map[]);
    seq(|grouped.0|, i requires 0 <= i < |grouped.0| => (grouped.0[i], grouped.1[grouped.0[i]]))
  }

  /** The cells of the group that can take `p`, from the group's map. */
  function PairCells(g: Game, grp: Group, p: int): (r: seq<nat>)
    requires WellFormed(g)
    ensures r == Filter(grp.cells, HasCandidate(g, p))
  {
    var m := PossibleToCellsMap(g, grp);
    if p in m then m[p]
    else
      FilterNone(grp.cells, HasCandidate(g, p));
      []
  }

  /** A group of the cell `c` other than `gi`, `gj` and of another kind than
      theirs, that also holds the cell `d` (`d.groups.includes(h)`). */
  function Crosses(k: nat, gi: Group, gj: Group, kind: Kind, d: nat): Group -> bool
    requires k > 0
  {
    (h: Group) => h != gi && h != gj && h.kind != kind && h in CellGroups(k, d)
  }

  /** The `zeroMatch` loop: the first of `jp[0]`, `jp[1]` sharing a crossing
      group with `ip[0]`, with that group. */
  function ZeroMatch(k: nat, gi: Group, gj: Group, kind: Kind, ip: seq<nat>, jp: seq<nat>): Option<(nat, Group)>
    requires k > 0 && |ip| == 2 && |jp| == 2
  {
    match Find(CellGroups(k, ip[0]), Crosses(k, gi, gj, kind, jp[0]))
    case Some(h) => Some((0, h))
    case None =>
      match Find(CellGroups(k, ip[0]), Crosses(k, gi, gj, kind, jp[1]))
      case Some(h) => Some((1, h))
      case None => None
  }

  function OutsideBoth(gi: Group, gj: Group): nat -> bool
  {
    c => c !in gi.cells && c !in gj.cells
  }

  /** One pair of candidate groups of the same kind.  Both have exactly two
      cells for `p` (they passed `HasPair`), so the length guard is never
      taken. */
  function XWingPair(g: Game, p: int, kind: Kind, gi: Group, gj: Group): Option<Move>
    requires WellFormed(g)
  {
    var ip, jp := PairCells(g, gi, p), PairCells(g, gj, p);
    if g.k == 0 || |ip| != 2 || |jp| != 2 then None
    else match ZeroMatch(g.k, gi, gj, kind, ip, jp)
      case None => None
      case Some((zi, zm)) =>
        if !Exists(Num(zi)) then None
        else match Find(CellGroups(g.k, ip[1]), Crosses(g.k, gi, gj, kind, jp[if zi == 0 then 1 else 0]))
          case None => None
          case Some(om) =>
            var toAffect := Filter(zm.cells + om.cells, OutsideBoth(gi, gj));
            if |Filter(toAffect, HasCandidate(g, p))| > 0 then Some(Block(BlockByXWing, toAffect, [p], XWingReason))
            else None
  }

  /** The body of the `i`, `j` loops over one kind's candidates. */
  function XWingPairOf(g: Game, p: int, kind: Kind): (Group, Group) -> Option<Move>
    requires WellFormed(g)
  {
    (gi: Group, gj: Group) => XWingPair(g, p, kind, gi, gj)
  }

  /** The `i` and `j` loops over one kind's candidates. */
  function XWingKind(g: Game, p: int): ((Kind, seq<Group>)) -> Option<Move>
    requires WellFormed(g)
  {
    (entry: (Kind, seq<Group>)) =>
      if |entry.1| >= 2 then PairScan(XWingPairOf(g, p, entry.0), entry.1) else None
  }

  /** One turn of the loop over the possible numbers: the groups with
      exactly two cells for `p`, split by kind. */
  function XWingOn(g: Game, p: int): Option<Move>
    requires WellFormed(g)
  {
    var cands := Filter(BoardGroups(g), HasPair(g, p));
    if |cands| >= 2 then FirstSome(KindLists(cands), XWingKind(g, p)) else None
  }

  function XWingFor(g: Game): int -> Option<Move>
    requires WellFormed(g)
  {
    p => XWingOn(g, p)
  }

  /** `xWing`: the possible numbers in order. */
  function XWing(g: Game): Option<Move>
    requires WellFormed(g)
  {
    FirstSome(PossibleValues(g), XWingFor(g))
  }

  /** An X-Wing on `p`: two distinct groups of one kind each have exactly two
      cells for `p`; one crossing group of another kind holds the first
      cell of each, another holds the second cell of each (in either
      pairing); the item blocks `p` from the crossing groups' cells outside
      the two groups, and at least one of them loses it. */
  predicate XWingItem(g: Game, p: int, gi: Group, gj: Group, zm: Group, om: Group, m: Move)
    requires WellFormed(g)
  {
    var a, b := Filter(gi.cells, HasCandidate(g, p)), Filter(gj.cells, HasCandidate(g, p));
    && gi in BoardGroups(g) && gj in BoardGroups(g) && gi != gj && gi.kind == gj.kind
    && |a| == 2 && |b| == 2
    && zm in BoardGroups(g) && om in BoardGroups(g) && zm.kind != gi.kind && om.kind != gi.kind
    && a[0] in zm.cells && a[1] in om.cells
    && ((b[0] in zm.cells && b[1] in om.cells) || (b[1] in zm.cells && b[0] in om.cells))
    && m == Block(BlockByXWing, Filter(zm.cells + om.cells, OutsideBoth(gi, gj)), [p], XWingReason)
    && exists c :: c in m.cells && p in Available(g, c)
  }

  /** Some pair of groups and pair of crossing groups justify `m`. */
  ghost predicate IsXWing(g: Game, p: int, m: Move)
    requires WellFormed(g)
  {
    exists gi, gj, zm, om :: XWingItem(g, p, gi, gj, zm, om, m)
  }

  lemma CrossingGroup(k: nat, gi: Group, gj: Group, kind: Kind, c: nat, d: nat, h: Group)
    requires k > 0 && h in CellGroups(k, c) && Crosses(k, gi, gj, kind, d)(h)
    ensures h in Groups(k) && c in h.cells && d in h.cells && h.kind != kind
  {
    CellGroupsMembers(k, c);
    CellGroupsMembers(k, d);
  }

  lemma ZeroMatchSpec(k: nat, gi: Group, gj: Group, kind: Kind, ip: seq<nat>, jp: seq<nat>)
    requires k > 0 && |ip| == 2 && |jp| == 2
    ensures var z := ZeroMatch(k, gi, gj, kind, ip, jp);
      z.Some? ==>
        && (z.value.0 == 0 || z.value.0 == 1)
        && z.value.1 in CellGroups(k, ip[0]) && Crosses(k, gi, gj, kind, jp[z.value.0])(z.value.1)
  {
  }

  lemma FoundCrossing(k: nat, gi: Group, gj: Group, kind: Kind, c: nat, d: nat)
    requires k > 0
    ensures var f := Find(CellGroups(k, c), Crosses(k, gi, gj, kind, d));
      f.Some? ==>
        && f.value in Groups(k) && c in f.value.cells && d in f.value.cells && f.value.kind != kind
        && f.value != gi && f.value != gj
  {
    var f := Find(CellGroups(k, c), Crosses(k, gi, gj, kind, d));
    if f.Some? {
      CrossingGroup(k, gi, gj, kind, c, d, f.value);
    }
  }

  lemma XWingItemFrom(g: Game, p: int, gi: Group, gj: Group, zm: Group, om: Group, a: seq<nat>, b: seq<nat>, m: Move)
    requires WellFormed(g)
    requires gi in BoardGroups(g) && gj in BoardGroups(g) && gi != gj && gi.kind == gj.kind
    requires a == Filter(gi.cells, HasCandidate(g, p)) && b == Filter(gj.cells, HasCandidate(g, p))
    requires |a| == 2 && |b| == 2
    requires zm in BoardGroups(g) && om in BoardGroups(g) && zm.kind != gi.kind && om.kind != gi.kind
    requires a[0] in zm.cells && a[1] in om.cells
    requires (b[0] in zm.cells && b[1] in om.cells) || (b[1] in zm.cells && b[0] in om.cells)
    requires m == Block(BlockByXWing, Filter(zm.cells + om.cells, OutsideBoth(gi, gj)), [p], XWingReason)
    requires |Filter(m.cells, HasCandidate(g, p))| > 0
    ensures XWingItem(g, p, gi, gj, zm, om, m)
  {
    var hit := Filter(m.cells, HasCandidate(g, p));
    assert hit[0] in hit;
  }

  lemma XWingPairSpec(g: Game, p: int, kind: Kind, gi: Group, gj: Group)
    requires WellFormed(g)
    requires gi in BoardGroups(g) && gj in BoardGroups(g) && gi != gj && gi.kind == kind && gj.kind == kind
    ensures XWingPair(g, p, kind, gi, gj).Some? ==>
      exists zm, om :: XWingItem(g, p, gi, gj, zm, om, XWingPair(g, p, kind, gi, gj).value)
  {
    var r := XWingPair(g, p, kind, gi, gj);
    if r.Some? {
      var ip, jp := PairCells(g, gi, p), PairCells(g, gj, p);
      var k := g.k;
      ZeroMatchSpec(k, gi, gj, kind, ip, jp);
      var zi, zm := ZeroMatch(k, gi, gj, kind, ip, jp).value.0, ZeroMatch(k, gi, gj, kind, ip, jp).value.1;
      CrossingGroup(k, gi, gj, kind, ip[0], jp[zi], zm);
      var other := if zi == 0 then 1 else 0;
      FoundCrossing(k, gi, gj, kind, ip[1], jp[other]);
      var om := Find(CellGroups(k, ip[1]), Crosses(k, gi, gj, kind, jp[other])).value;
      if zi == 0 {
        assert jp[0] in zm.cells && jp[1] in om.cells;
      } else {
        assert jp[1] in zm.cells && jp[0] in om.cells;
      }
      XWingItemFrom(g, p, gi, gj, zm, om, ip, jp, r.value);
    }
  }

  /** Within one kind's list of candidates, an item comes from a pair
      `list[i]`, `list[j]` with `i < j`, which are distinct groups. */
  lemma XWingKindSpec(g: Game, p: int, entry: (Kind, seq<Group>))
    requires WellFormed(g)
    requires NoDup(entry.1)
    requires forall x :: x in entry.1 ==> x in BoardGroups(g) && x.kind == entry.0
    ensures XWingKind(g, p)(entry).Some? ==> IsXWing(g, p, XWingKind(g, p)(entry).value)
  {
    var kind, list := entry.0, entry.1;
    var pf := XWingPairOf(g, p, kind);
    forall a, b | 0 <= a < b < |list| && pf(list[a], list[b]).Some?
      ensures IsXWing(g, p, pf(list[a], list[b]).value)
    {
      assert list[a] in list && list[b] in list && list[a] != list[b];
      XWingPairSpec(g, p, kind, list[a], list[b]);
    }
    PairScanHolds(pf, list, (m: Move) => IsXWing(g, p, m));
  }

  lemma XWingOnSpec(g: Game, p: int)
    requires WellFormed(g)
    ensures XWingOn(g, p).Some? ==> IsXWing(g, p, XWingOn(g, p).value)
  {
    var cands := Filter(BoardGroups(g), HasPair(g, p));
    if |cands| >= 2 {
      var ks := KindLists(cands);
      if g.k > 0 {
        FamiliesDistinct(g.k);
      }
      FilterNoDup(BoardGroups(g), HasPair(g, p));
      forall i | 0 <= i < |ks| && XWingKind(g, p)(ks[i]).Some?
        ensures IsXWing(g, p, XWingKind(g, p)(ks[i]).value)
      {
        assert ks[i] in ks;
        FilterNoDup(cands, KindIsOf(ks[i].0));
        XWingKindSpec(g, p, ks[i]);
      }
      FirstSomeHolds(ks, XWingKind(g, p), (m: Move) => IsXWing(g, p, m));
    }
  }

  /** An X-Wing item blocks a possible number by the shape `XWingItem`
      describes. */
  lemma XWingSpec(g: Game)
    requires WellFormed(g)
    ensures XWing(g).Some? ==> exists p :: p in PossibleValues(g) && IsXWing(g, p, XWing(g).value)
  {
    var ps := PossibleValues(g);
    var r := XWing(g);
    if r.Some? {
      var i := FirstSomeWitness(ps, XWingFor(g));
      XWingOnSpec(g, ps[i]);
    }
  }

  /** A block reaching a cell that still has one of its numbers makes
      progress. */
  lemma OverlapProgress(g: Game, m: Move, c: nat)
    requires WellFormed(g) && m.Block? && c in m.cells && Overlap(Available(g, c), m.values)
    ensures MakesProgress(g, m)
  {
    assert |Available(g, c)| > 0;
  }

  lemma MemberProgress(g: Game, m: Move, c: nat, v: int)
    requires WellFormed(g) && m.Block? && c in m.cells && v in m.values && v in Available(g, c)
    ensures MakesProgress(g, m)
  {
    var i :| 0 <= i < |Available(g, c)| && Available(g, c)[i] == v;
    OverlapProgress(g, m, c);
  }

  /* ---------------------------------- yWing ---------------------------------- */

  /** The two failures `yWing` reports by throwing. */
  datatype StrategyError = GameInvalid | AUndefined | CUndefined

  /** How many of `a`'s groups also belong to `c`. */
  function SharedCount(k: nat, a: nat, c: nat): nat
    requires k > 0
  {
    |Filter(CellGroups(k, a), (gg: Group) => gg in CellGroups(k, c))|
  }

  /** A possible wing of the pivot `ab`: another cell with two available
      numbers sharing exactly one group with the pivot. */
  predicate IsWing(g: Game, ab: nat, c: nat)
    requires WellFormed(g) && g.k > 0
  {
    c != ab && |Available(g, c)| == 2 && SharedCount(g.k, ab, c) == 1
  }

  function Wing(g: Game, ab: nat): nat -> bool
    requires WellFormed(g) && g.k > 0
  {
    (c: nat) => IsWing(g, ab, c)
  }

  /** A possible `ac` wing: a wing that can take both `a` and `c`. */
  function AcWing(g: Game, ab: nat, a: int, c: int): nat -> bool
    requires WellFormed(g) && g.k > 0
  {
    (x: nat) => IsWing(g, ab, x) && a in Available(g, x) && c in Available(g, x)
  }

  function InAvailable(g: Game, c: nat): int -> bool
    requires WellFormed(g)
  {
    (x: int) => x in Available(g, c)
  }

  function Contains(c: nat): Group -> bool
  {
    (gg: Group) => c in gg.cells
  }

  /** The innermost test: `cCell` can take `c` and shares a group with
      each wing. */
  function YWingTargetAt(g: Game, ac: nat, bc: nat, c: int, cc: nat): Option<Move>
    requires WellFormed(g) && g.k > 0
  {
    if c in Available(g, cc) && Find(CellGroups(g.k, ac), Contains(cc)).Some?
      && Find(CellGroups(g.k, bc), Contains(cc)).Some?
    then Some(Block(BlockByYWing, [cc], [c], YWingReason))
    else None
  }

  function YWingTarget(g: Game, ac: nat, bc: nat, c: int): nat -> Option<Move>
    requires WellFormed(g) && g.k > 0
  {
    (cc: nat) => YWingTargetAt(g, ac, bc, c, cc)
  }

  /** `cGroups`: the groups of `acCell` and of the pivot other than
      `acGroup`, `bcGroup` and the pivot's own groups. */
  function IsCGroup(k: nat, ab: nat, acGroup: Group, bcGroup: Group): Group -> bool
    requires k > 0
  {
    (gg: Group) => gg != acGroup && gg != bcGroup && gg !in CellGroups(k, ab)
  }

  /** The loop over the cells of one of the `cGroups`. */
  function YWingCGroupAt(g: Game, ac: nat, bc: nat, c: int, cg: Group): Option<Move>
    requires WellFormed(g) && g.k > 0
  {
    FirstSome(cg.cells, YWingTarget(g, ac, bc, c))
  }

  function YWingCGroup(g: Game, ac: nat, bc: nat, c: int): Group -> Option<Move>
    requires WellFormed(g) && g.k > 0
  {
    (cg: Group) => YWingCGroupAt(g, ac, bc, c, cg)
  }

  /** One `acCell`: the loop over its `cGroups`. */
  function YWingAcAt(g: Game, ab: nat, bc: nat, acGroup: Group, bcGroup: Group, c: int, ac: nat): Option<Move>
    requires WellFormed(g) && g.k > 0
  {
    var cGroups := Filter(CellGroups(g.k, ac) + CellGroups(g.k, ab), IsCGroup(g.k, ab, acGroup, bcGroup));
    FirstSome(cGroups, YWingCGroup(g, ac, bc, c))
  }

  function YWingAc(g: Game, ab: nat, bc: nat, acGroup: Group, bcGroup: Group, c: int): nat -> Option<Move>
    requires WellFormed(g) && g.k > 0
  {
    (ac: nat) => YWingAcAt(g, ab, bc, acGroup, bcGroup, c, ac)
  }

  /** One `acGroup`: the loop over its possible `ac` wings. */
  function YWingAcGroupAt(g: Game, ab: nat, bc: nat, bcGroup: Group, a: int, c: int, acGroup: Group): Option<Move>
    requires WellFormed(g) && g.k > 0
  {
    FirstSome(Filter(acGroup.cells, AcWing(g, ab, a, c)), YWingAc(g, ab, bc, acGroup, bcGroup, c))
  }

  function YWingAcGroup(g: Game, ab: nat, bc: nat, bcGroup: Group, a: int, c: int): Group -> Option<Move>
    requires WellFormed(g) && g.k > 0
  {
    (acGroup: Group) => YWingAcGroupAt(g, ab, bc, bcGroup, a, c, acGroup)
  }

  function NotGroup(grp: Group): Group -> bool
  {
    (gg: Group) => gg != grp
  }

  function NotValue(v: int): int -> bool
  {
    (x: int) => x != v
  }

  /** One `bcCell`: the pivot and the wing must share exactly one number
      `b`; `a` and `c` are their other numbers (`-1` when missing, which
      throws). */
  function YWingBcAt(g: Game, ab: nat, bcGroup: Group, bc: nat): Result<Option<Move>, StrategyError>
    requires WellFormed(g) && g.k > 0
  {
    var inter := Filter(Available(g, ab), InAvailable(g, bc));
    if |inter| != 1 then Ok(None) else YWingShared(g, ab, bcGroup, bc, inter[0])
  }

  /** The pivot and the wing share the number `b`. */
  function YWingShared(g: Game, ab: nat, bcGroup: Group, bc: nat, b: int): Result<Option<Move>, StrategyError>
    requires WellFormed(g) && g.k > 0
  {
    var a := GetOr(Find(Available(g, ab), NotValue(b)), -1);
    var c := GetOr(Find(Available(g, bc), NotValue(b)), -1);
    if a == -1 then Err(AUndefined)
    else if c == -1 then Err(CUndefined)
    else Ok(YWingAcGroups(g, ab, bcGroup, bc, a, c))
  }

  /** The loop over the pivot's groups other than `bcGroup`. */
  function YWingAcGroups(g: Game, ab: nat, bcGroup: Group, bc: nat, a: int, c: int): Option<Move>
    requires WellFormed(g) && g.k > 0
  {
    FirstSome(Filter(CellGroups(g.k, ab), NotGroup(bcGroup)), YWingAcGroup(g, ab, bc, bcGroup, a, c))
  }

  function YWingBc(g: Game, ab: nat, bcGroup: Group): nat -> Result<Option<Move>, StrategyError>
    requires WellFormed(g) && g.k > 0
  {
    (bc: nat) => YWingBcAt(g, ab, bcGroup, bc)
  }

  /** One `bcGroup` of the pivot: the loop over its possible `bc` wings. */
  function YWingBcGroupAt(g: Game, ab: nat, bcGroup: Group): Result<Option<Move>, StrategyError>
    requires WellFormed(g) && g.k > 0
  {
    FirstFound(Filter(bcGroup.cells, Wing(g, ab)), YWingBc(g, ab, bcGroup))
  }

  function YWingBcGroup(g: Game, ab: nat): Group -> Result<Option<Move>, StrategyError>
    requires WellFormed(g) && g.k > 0
  {
    (bcGroup: Group) => YWingBcGroupAt(g, ab, bcGroup)
  }

  /** One pivot: an open cell with exactly two available numbers. */
  function YWingPivotAt(g: Game, ab: nat): Result<Option<Move>, StrategyError>
    requires WellFormed(g) && g.k > 0
  {
    if |Available(g, ab)| == 2 then FirstFound(CellGroups(g.k, ab), YWingBcGroup(g, ab)) else Ok(None)
  }

  function YWingPivot(g: Game): nat -> Result<Option<Move>, StrategyError>
    requires WellFormed(g) && g.k > 0
  {
    (ab: nat) => YWingPivotAt(g, ab)
  }

  /** `yWing`: the open cells in board order are the candidate pivots; a
      board without cells has none. */
  function YWing(g: Game): Result<Option<Move>, StrategyError>
    requires WellFormed(g)
  {
    if g.k == 0 then Ok(None)
    else FirstFound(Filter(CellIndices(g), IsOpen(g)), YWingPivot(g))
  }

  /** The pivot `ab` (two numbers, open) and the wing `bc` in the pivot's
      group `bcGroup` share exactly the number `b`; `a` is the pivot's other
      number and `c` the wing's. */
  ghost predicate YWingPivotPart(g: Game, ab: nat, bcGroup: Group, bc: nat, a: int, b: int, c: int)
    requires WellFormed(g) && g.k > 0
  {
    && ab < |g.cells| && IsOpen(g)(ab) && |Available(g, ab)| == 2
    && bcGroup in CellGroups(g.k, ab) && bc in bcGroup.cells && IsWing(g, ab, bc)
    && Filter(Available(g, ab), InAvailable(g, bc)) == [b]
    && a in Available(g, ab) && a != b && c in Available(g, bc) && c != b
  }

  /** Besides, the wing `ac` lies in another group `acGroup` of the pivot
      and can take both `a` and `c`. */
  ghost predicate YWingShape(g: Game, ab: nat, bcGroup: Group, bc: nat, acGroup: Group, ac: nat, a: int, b: int, c: int)
    requires WellFormed(g) && g.k > 0
  {
    && YWingPivotPart(g, ab, bcGroup, bc, a, b, c)
    && acGroup in CellGroups(g.k, ab) && acGroup != bcGroup && ac in acGroup.cells
    && IsWing(g, ab, ac) && a in Available(g, ac) && c in Available(g, ac)
  }

  /** A Y-Wing item: the target `cc` can take `c`, lies in a group of `ac`
      that is not one of the pivot's and shares a group with `bc`; the item
      blocks `c` from it. */
  ghost predicate YWingItem(g: Game, ab: nat, bcGroup: Group, bc: nat, acGroup: Group, ac: nat, cc: nat,
                            a: int, b: int, c: int, m: Move)
    requires WellFormed(g) && g.k > 0
  {
    && YWingShape(g, ab, bcGroup, bc, acGroup, ac, a, b, c)
    && (exists cg :: cg in CellGroups(g.k, ac) && cg !in CellGroups(g.k, ab) && cc in cg.cells)
    && (exists h :: h in CellGroups(g.k, bc) && cc in h.cells)
    && c in Available(g, cc)
    && m == Block(BlockByYWing, [cc], [c], YWingReason)
  }

  ghost predicate IsYWing(g: Game, m: Move)
    requires WellFormed(g) && g.k > 0
  {
    exists ab, bcGroup, bc, acGroup, ac, cc, a, b, c :: YWingItem(g, ab, bcGroup, bc, acGroup, ac, cc, a, b, c, m)
  }

  /** A Y-Wing item that makes progress. */
  ghost predicate YWingMove(g: Game, m: Move)
    requires WellFormed(g) && g.k > 0
  {
    IsYWing(g, m) && MakesProgress(g, m)
  }

  /** What `yWing` and its loops yield: no throw, and any item is a Y-Wing
      that makes progress. */
  ghost predicate YWingOutcome(g: Game, r: Result<Option<Move>, StrategyError>)
    requires WellFormed(g) && g.k > 0
  {
    r.Ok? && (r.value.Some? ==> YWingMove(g, r.value.value))
  }

  lemma YWingTargetSpec(g: Game, ab: nat, bcGroup: Group, bc: nat, acGroup: Group, ac: nat, cg: Group,
                        a: int, b: int, c: int, cc: nat)
    requires WellFormed(g) && g.k > 0
    requires YWingShape(g, ab, bcGroup, bc, acGroup, ac, a, b, c)
    requires cg in CellGroups(g.k, ac) && cg !in CellGroups(g.k, ab) && cc in cg.cells
    ensures YWingTargetAt(g, ac, bc, c, cc).Some? ==> YWingMove(g, YWingTargetAt(g, ac, bc, c, cc).value)
  {
    var r := YWingTargetAt(g, ac, bc, c, cc);
    if r.Some? {
      var h := Find(CellGroups(g.k, bc), Contains(cc)).value;
      assert h in CellGroups(g.k, bc) && cc in h.cells;
      assert YWingItem(g, ab, bcGroup, bc, acGroup, ac, cc, a, b, c, r.value);
      MemberProgress(g, r.value, cc, c);
    }
  }

  lemma YWingCGroupSpec(g: Game, ab: nat, bcGroup: Group, bc: nat, acGroup: Group, ac: nat, cg: Group,
                        a: int, b: int, c: int)
    requires WellFormed(g) && g.k > 0
    requires YWingShape(g, ab, bcGroup, bc, acGroup, ac, a, b, c)
    requires cg in CellGroups(g.k, ac) && cg !in CellGroups(g.k, ab)
    ensures YWingCGroupAt(g, ac, bc, c, cg).Some? ==> YWingMove(g, YWingCGroupAt(g, ac, bc, c, cg).value)
  {
    forall i | 0 <= i < |cg.cells| && YWingTarget(g, ac, bc, c)(cg.cells[i]).Some?
      ensures YWingMove(g, YWingTarget(g, ac, bc, c)(cg.cells[i]).value)
    {
      assert YWingTarget(g, ac, bc, c)(cg.cells[i]) == YWingTargetAt(g, ac, bc, c, cg.cells[i]);
      YWingTargetSpec(g, ab, bcGroup, bc, acGroup, ac, cg, a, b, c, cg.cells[i]);
    }
    FirstSomeHolds(cg.cells, YWingTarget(g, ac, bc, c), (m: Move) => YWingMove(g, m));
  }

  lemma YWingAcSpec(g: Game, ab: nat, bcGroup: Group, bc: nat, acGroup: Group, ac: nat, a: int, b: int, c: int)
    requires WellFormed(g) && g.k > 0
    requires YWingShape(g, ab, bcGroup, bc, acGroup, ac, a, b, c)
    ensures YWingAcAt(g, ab, bc, acGroup, bcGroup, c, ac).Some? ==>
      YWingMove(g, YWingAcAt(g, ab, bc, acGroup, bcGroup, c, ac).value)
  {
    var cGroups := Filter(CellGroups(g.k, ac) + CellGroups(g.k, ab), IsCGroup(g.k, ab, acGroup, bcGroup));
    forall i | 0 <= i < |cGroups| && YWingCGroup(g, ac, bc, c)(cGroups[i]).Some?
      ensures YWingMove(g, YWingCGroup(g, ac, bc, c)(cGroups[i]).value)
    {
      assert cGroups[i] in cGroups;
      assert YWingCGroup(g, ac, bc, c)(cGroups[i]) == YWingCGroupAt(g, ac, bc, c, cGroups[i]);
      YWingCGroupSpec(g, ab, bcGroup, bc, acGroup, ac, cGroups[i], a, b, c);
    }
    FirstSomeHolds(cGroups, YWingCGroup(g, ac, bc, c), (m: Move) => YWingMove(g, m));
  }

  lemma YWingAcGroupSpec(g: Game, ab: nat, bcGroup: Group, bc: nat, acGroup: Group, a: int, b: int, c: int)
    requires WellFormed(g) && g.k > 0
    requires YWingPivotPart(g, ab, bcGroup, bc, a, b, c)
    requires acGroup in CellGroups(g.k, ab) && acGroup != bcGroup
    ensures YWingAcGroupAt(g, ab, bc, bcGroup, a, c, acGroup).Some? ==>
      YWingMove(g, YWingAcGroupAt(g, ab, bc, bcGroup, a, c, acGroup).value)
  {
    var acs := Filter(acGroup.cells, AcWing(g, ab, a, c));
    forall i | 0 <= i < |acs| && YWingAc(g, ab, bc, acGroup, bcGroup, c)(acs[i]).Some?
      ensures YWingMove(g, YWingAc(g, ab, bc, acGroup, bcGroup, c)(acs[i]).value)
    {
      assert acs[i] in acs;
      assert YWingAc(g, ab, bc, acGroup, bcGroup, c)(acs[i]) == YWingAcAt(g, ab, bc, acGroup, bcGroup, c, acs[i]);
      YWingAcSpec(g, ab, bcGroup, bc, acGroup, acs[i], a, b, c);
    }
    FirstSomeHolds(acs, YWingAc(g, ab, bc, acGroup, bcGroup, c), (m: Move) => YWingMove(g, m));
  }

  /** The other number of a two-number cell that has `b`: it exists and is
      a real number, so `?? -1` never yields `-1`. */
  lemma OtherNumber(g: Game, cell: nat, b: int)
    requires WellFormed(g) && |Available(g, cell)| == 2 && b in Available(g, cell)
    ensures var o := Find(Available(g, cell), NotValue(b));
      o.Some? && o.value in Available(g, cell) && o.value != b && o.value != -1
  {
    var av := Available(g, cell);
    assert av[0] < av[1];
    assert NotValue(b)(av[0]) || NotValue(b)(av[1]);
  }

  /** The other number as `yWing` reads it, `?? -1` included. */
  lemma OtherOf(g: Game, cell: nat, b: int) returns (o: int)
    requires WellFormed(g) && |Available(g, cell)| == 2 && b in Available(g, cell)
    ensures o == GetOr(Find(Available(g, cell), NotValue(b)), -1)
    ensures o in Available(g, cell) && o != b && o != -1
  {
    OtherNumber(g, cell, b);
    o := Find(Available(g, cell), NotValue(b)).value;
  }

  lemma YWingBcSpec(g: Game, ab: nat, bcGroup: Group, bc: nat)
    requires WellFormed(g) && g.k > 0
    requires ab < |g.cells| && IsOpen(g)(ab) && |Available(g, ab)| == 2
    requires bcGroup in CellGroups(g.k, ab) && bc in bcGroup.cells && IsWing(g, ab, bc)
    ensures YWingOutcome(g, YWingBcAt(g, ab, bcGroup, bc))
  {
    var inter := Filter(Available(g, ab), InAvailable(g, bc));
    if |inter| == 1 {
      assert YWingBcAt(g, ab, bcGroup, bc) == YWingShared(g, ab, bcGroup, bc, inter[0]);
      YWingSharedSpec(g, ab, bcGroup, bc, inter[0]);
    } else {
      assert YWingBcAt(g, ab, bcGroup, bc) == Ok(None);
    }
  }

  /** Both wings being two-candidate cells, their other numbers exist, so
      neither throw is reachable. */
  lemma YWingSharedSpec(g: Game, ab: nat, bcGroup: Group, bc: nat, b: int)
    requires WellFormed(g) && g.k > 0
    requires ab < |g.cells| && IsOpen(g)(ab) && |Available(g, ab)| == 2
    requires bcGroup in CellGroups(g.k, ab) && bc in bcGroup.cells && IsWing(g, ab, bc)
    requires var inter := Filter(Available(g, ab), InAvailable(g, bc)); |inter| == 1 && inter[0] == b
    ensures YWingOutcome(g, YWingShared(g, ab, bcGroup, bc, b))
  {
    var a, c := YWingOthers(g, ab, bcGroup, bc, b);
    YWingAcGroupsSpec(g, ab, bcGroup, bc, a, b, c);
  }

  /** The numbers `a` and `c` the Y-Wing search reads off the two wings. */
  lemma YWingOthers(g: Game, ab: nat, bcGroup: Group, bc: nat, b: int) returns (a: int, c: int)
    requires WellFormed(g) && g.k > 0
    requires ab < |g.cells| && IsOpen(g)(ab) && |Available(g, ab)| == 2
    requires bcGroup in CellGroups(g.k, ab) && bc in bcGroup.cells && IsWing(g, ab, bc)
    requires var inter := Filter(Available(g, ab), InAvailable(g, bc)); |inter| == 1 && inter[0] == b
    ensures YWingShared(g, ab, bcGroup, bc, b) == Ok(YWingAcGroups(g, ab, bcGroup, bc, a, c))
    ensures YWingPivotPart(g, ab, bcGroup, bc, a, b, c)
  {
    var inter := Filter(Available(g, ab), InAvailable(g, bc));
    SingletonSeq(inter);
    assert b in inter;
    a := OtherOf(g, ab, b);
    c := OtherOf(g, bc, b);
    assert YWingShared(g, ab, bcGroup, bc, b) == Ok(YWingAcGroups(g, ab, bcGroup, bc, a, c));
  }

  /** The loop over the pivot's other groups, once `a`, `b` and `c` are known. */
  lemma YWingAcGroupsSpec(g: Game, ab: nat, bcGroup: Group, bc: nat, a: int, b: int, c: int)
    requires WellFormed(g) && g.k > 0
    requires YWingPivotPart(g, ab, bcGroup, bc, a, b, c)
    ensures YWingAcGroups(g, ab, bcGroup, bc, a, c).Some? ==> YWingMove(g, YWingAcGroups(g, ab, bcGroup, bc, a, c).value)
  {
    var acGroups := Filter(CellGroups(g.k, ab), NotGroup(bcGroup));
    forall i | 0 <= i < |acGroups| && YWingAcGroup(g, ab, bc, bcGroup, a, c)(acGroups[i]).Some?
      ensures YWingMove(g, YWingAcGroup(g, ab, bc, bcGroup, a, c)(acGroups[i]).value)
    {
      assert acGroups[i] in acGroups;
      assert YWingAcGroup(g, ab, bc, bcGroup, a, c)(acGroups[i]) == YWingAcGroupAt(g, ab, bc, bcGroup, a, c, acGroups[i]);
      YWingAcGroupSpec(g, ab, bcGroup, bc, acGroups[i], a, b, c);
    }
    FirstSomeHolds(acGroups, YWingAcGroup(g, ab, bc, bcGroup, a, c), (m: Move) => YWingMove(g, m));
  }

  lemma YWingBcGroupSpec(g: Game, ab: nat, bcGroup: Group)
    requires WellFormed(g) && g.k > 0
    requires ab < |g.cells| && IsOpen(g)(ab) && |Available(g, ab)| == 2
    requires bcGroup in CellGroups(g.k, ab)
    ensures YWingOutcome(g, YWingBcGroupAt(g, ab, bcGroup))
  {
    var bcs := Filter(bcGroup.cells, Wing(g, ab));
    forall i | 0 <= i < |bcs|
      ensures YWingOutcome(g, YWingBc(g, ab, bcGroup)(bcs[i]))
    {
      assert bcs[i] in bcs;
      assert YWingBc(g, ab, bcGroup)(bcs[i]) == YWingBcAt(g, ab, bcGroup, bcs[i]);
      YWingBcSpec(g, ab, bcGroup, bcs[i]);
    }
    FirstFoundHolds(bcs, YWingBc(g, ab, bcGroup), (r: Result<Option<Move>, StrategyError>) => YWingOutcome(g, r));
  }

  lemma YWingPivotSpec(g: Game, ab: nat)
    requires WellFormed(g) && g.k > 0
    requires ab < |g.cells| && IsOpen(g)(ab)
    ensures YWingOutcome(g, YWingPivotAt(g, ab))
  {
    if |Available(g, ab)| == 2 {
      var gs := CellGroups(g.k, ab);
      forall i | 0 <= i < |gs|
        ensures YWingOutcome(g, YWingBcGroup(g, ab)(gs[i]))
      {
        assert YWingBcGroup(g, ab)(gs[i]) == YWingBcGroupAt(g, ab, gs[i]);
        YWingBcGroupSpec(g, ab, gs[i]);
      }
      FirstFoundHolds(gs, YWingBcGroup(g, ab), (r: Result<Option<Move>, StrategyError>) => YWingOutcome(g, r));
    }
  }

  /** `yWing` never throws: the pivot and the wing each have two distinct
      numbers, so both `find`s succeed.  Any item it returns is a Y-Wing. */
  lemma YWingSpec(g: Game)
    requires WellFormed(g)
    ensures YWing(g).Ok?
    ensures g.k > 0 && YWing(g).value.Some? ==> IsYWing(g, YWing(g).value.value)
    ensures YWing(g).value.Some? ==> MakesProgress(g, YWing(g).value.value)
  {
    if g.k > 0 {
      var open := Filter(CellIndices(g), IsOpen(g));
      forall i | 0 <= i < |open|
        ensures YWingOutcome(g, YWingPivot(g)(open[i]))
      {
        assert open[i] in open;
        assert YWingPivot(g)(open[i]) == YWingPivotAt(g, open[i]);
        YWingPivotSpec(g, open[i]);
      }
      FirstFoundHolds(open, YWingPivot(g), (r: Result<Option<Move>, StrategyError>) => YWingOutcome(g, r));
    }
  }

  /* ---------------------------- buildStrategyStep ---------------------------- */

  /** A set item puts an available number on an empty cell. */
  lemma SetProgress(g: Game, m: Move)
    requires WellFormed(g) && m.Set? && m.value in Available(g, m.cell)
    ensures MakesProgress(g, m)
  {
  }

  lemma SolvedSquareProgress(g: Game)
    requires WellFormed(g)
    ensures SolvedSquare(g).Some? ==> MakesProgress(g, SolvedSquare(g).value)
  {
    SolvedSquareSpec(g);
    if SolvedSquare(g).Some? {
      var i :| 0 <= i < |g.cells| && |Available(g, i)| == 1 &&
        SolvedSquare(g).value == Set(SetBySolvedSquare, i, Available(g, i)[0], SolvedSquareReason(i, Available(g, i)[0]));
      SetProgress(g, SolvedSquare(g).value);
    }
  }

  lemma HiddenSingleProgress(g: Game)
    requires WellFormed(g)
    ensures HiddenSingle(g).Some? ==> MakesProgress(g, HiddenSingle(g).value)
  {
    HiddenSingleSpec(g);
    var r := HiddenSingle(g);
    if r.Some? {
      var grp, p :| HiddenSingleItem(g, grp, p, r.value);
      HiddenSingleItemProgress(g, grp, p, r.value);
    }
  }

  lemma HiddenSingleItemProgress(g: Game, grp: Group, p: int, m: Move)
    requires WellFormed(g) && HiddenSingleItem(g, grp, p, m)
    ensures MakesProgress(g, m)
  {
    assert m.cell in Filter(grp.cells, HasCandidate(g, p));
    SetProgress(g, m);
  }

  lemma NakedSetsProgress(g: Game)
    requires WellFormed(g)
    ensures NakedSets(g).Some? ==> MakesProgress(g, NakedSets(g).value)
  {
    NakedSetsSpec(g);
    var r := NakedSets(g);
    if r.Some? {
      var grp, covered :| grp in BoardGroups(g) && NakedSetItem(g, grp, covered, r.value);
      var c :| c in r.value.cells && Overlap(Available(g, c), r.value.values);
      OverlapProgress(g, r.value, c);
    }
  }

  lemma PointingPairsProgress(g: Game)
    requires WellFormed(g)
    ensures PointingPairs(g).Some? ==> MakesProgress(g, PointingPairs(g).value)
  {
    PointingPairsSpec(g);
    var r := PointingPairs(g);
    if r.Some? {
      var grp, ag, n :| grp in BoardGroups(g) && PointingItem(g, grp, ag, n, r.value);
      var c :| c in r.value.cells && n in Available(g, c);
      MemberProgress(g, r.value, c, n);
    }
  }

  lemma XWingProgress(g: Game)
    requires WellFormed(g)
    ensures XWing(g).Some? ==> MakesProgress(g, XWing(g).value)
  {
    XWingSpec(g);
    var r := XWing(g);
    if r.Some? {
      var p :| p in PossibleValues(g) && IsXWing(g, p, r.value);
      var gi, gj, zm, om :| XWingItem(g, p, gi, gj, zm, om, r.value);
      var c :| c in r.value.cells && p in Available(g, c);
      MemberProgress(g, r.value, c, p);
    }
  }

  /** What each technique answers, in the order `buildStrategyStep` tries
      them; only the Y-Wing search can throw. */
  function Answers(g: Game): seq<Result<Option<Move>, StrategyError>>
    requires WellFormed(g)
  {
    [Ok(SolvedSquare(g)), Ok(HiddenSingle(g)), Ok(NakedSets(g)), Ok(HiddenSets(g)),
     Ok(PointingPairs(g)), Ok(XWing(g)), YWing(g)]
  }

  /** An answer that ends the cascade: an item found, or a throw. */
  function Decided<M, E>(r: Result<Option<M>, E>): Option<Result<Option<M>, E>>
  {
    if r.Ok? && r.value.None? then None else Some(r)
  }

  /** An answer that does not throw, and whose item, if any, makes progress. */
  predicate SoundAnswer(g: Game, r: Result<Option<Move>, StrategyError>)
    requires WellFormed(g)
  {
    r.Ok? && (r.value.Some? ==> MakesProgress(g, r.value.value))
  }

  /** No technique throws, and every item one finds makes progress. */
  lemma AnswerSound(g: Game, i: nat)
    requires WellFormed(g) && i < |Answers(g)|
    ensures SoundAnswer(g, Answers(g)[i])
  {
    SevenElements(Ok(SolvedSquare(g)), Ok(HiddenSingle(g)), Ok(NakedSets(g)), Ok(HiddenSets(g)),
      Ok(PointingPairs(g)), Ok(XWing(g)), YWing(g));
    if i == 0 {
      SolvedSquareProgress(g);
    } else if i == 1 {
      HiddenSingleProgress(g);
    } else if i == 2 {
      NakedSetsProgress(g);
    } else if i == 3 {
      HiddenSetsNeverFire(g);
    } else if i == 4 {
      PointingPairsProgress(g);
    } else if i == 5 {
      XWingProgress(g);
    } else {
      YWingSound(g);
    }
  }

  lemma YWingSound(g: Game)
    requires WellFormed(g)
    ensures SoundAnswer(g, YWing(g))
  {
    YWingSpec(g);
  }

  /** `buildStrategyStep`: an invalid game throws; otherwise the first
      technique, in the fixed order, that finds an item (or throws) decides
      the answer, and when none does the answer is `null`. */
  function BuildStrategyStep(g: Game): (r: Result<Option<Move>, StrategyError>)
    requires WellFormed(g)
  {
    if !IsValid(g) then Err(GameInvalid)
    else
      var d := FirstSome(Answers(g), Decided);
      if d.Some? then d.value else Ok(None)
  }

  /** When a technique decides the cascade its answer is an item that makes
      progress; when none does the answer is `null`. */
  lemma DecidedStep(g: Game)
    requires WellFormed(g) && IsValid(g)
    ensures BuildStrategyStep(g).Ok?
    ensures BuildStrategyStep(g).value.Some? ==> MakesProgress(g, BuildStrategyStep(g).value.value)
  {
    var d := FirstSome(Answers(g), Decided);
    if d.Some? {
      var i := FirstSomeWitness(Answers(g), Decided);
      AnswerSound(g, i);
      assert Decided(Answers(g)[i]) == d;
    }
  }

  /** Only an invalid game throws, and it always does. */
  lemma BuildStrategyStepThrows(g: Game)
    requires WellFormed(g)
    ensures BuildStrategyStep(g).Err? <==> !IsValid(g)
    ensures BuildStrategyStep(g).Err? ==> BuildStrategyStep(g).error == GameInvalid
  {
    if IsValid(g) {
      DecidedStep(g);
    }
  }

  /** Every item found makes progress, so applying it shrinks the
      open-candidate measure. */
  lemma BuildStrategyStepProgress(g: Game)
    requires WellFormed(g)
    ensures BuildStrategyStep(g).Ok? && BuildStrategyStep(g).value.Some? ==>
      MakesProgress(g, BuildStrategyStep(g).value.value)
  {
    if IsValid(g) {
      DecidedStep(g);
    }
  }

  /** The ordered answers are the cascade of `buildStrategyStep`: the first
      technique, in the fixed order, that finds an item supplies it, and the
      Y-Wing search answers last. */
  lemma {:induction false} BuildStrategyStepCascade(g: Game)
    requires WellFormed(g) && IsValid(g)
    ensures BuildStrategyStep(g) ==
      if SolvedSquare(g).Some? then Ok(SolvedSquare(g))
      else if HiddenSingle(g).Some? then Ok(HiddenSingle(g))
      else if NakedSets(g).Some? then Ok(NakedSets(g))
      else if HiddenSets(g).Some? then Ok(HiddenSets(g))
      else if PointingPairs(g).Some? then Ok(PointingPairs(g))
      else if XWing(g).Some? then Ok(XWing(g))
      else YWing(g)
  {
    var a := Answers(g);
    SevenElements(Ok(SolvedSquare(g)), Ok(HiddenSingle(g)), Ok(NakedSets(g)), Ok(HiddenSets(g)),
      Ok(PointingPairs(g)), Ok(XWing(g)), YWing(g));
    FirstSomeSeven(a, Decided);
    CascadeShape(SolvedSquare(g), HiddenSingle(g), NakedSets(g), HiddenSets(g), PointingPairs(g),
      XWing(g), YWing(g), FirstSome(a, Decided), BuildStrategyStep(g));
  }

  /** Reading the cascade of decided answers as the chain of "found" tests
      of `buildStrategyStep`. */
  lemma CascadeShape<M, E>(a: Option<M>, b: Option<M>, c: Option<M>, d: Option<M>, e: Option<M>,
                           f: Option<M>, y: Result<Option<M>, E>, x: Option<Result<Option<M>, E>>,
                           r: Result<Option<M>, E>)
    requires x ==
      if Decided<M, E>(Ok(a)).Some? then Decided(Ok(a)) else if Decided<M, E>(Ok(b)).Some? then Decided(Ok(b))
      else if Decided<M, E>(Ok(c)).Some? then Decided(Ok(c)) else if Decided<M, E>(Ok(d)).Some? then Decided(Ok(d))
      else if Decided<M, E>(Ok(e)).Some? then Decided(Ok(e)) else if Decided<M, E>(Ok(f)).Some? then Decided(Ok(f))
      else Decided(y)
    requires r == if x.Some? then x.value else Ok(None)
    ensures r ==
      if a.Some? then Ok(a) else if b.Some? then Ok(b) else if c.Some? then Ok(c)
      else if d.Some? then Ok(d) else if e.Some? then Ok(e) else if f.Some? then Ok(f) else y
  { }

  /** `null` comes back exactly when no technique applies; the hidden-set
      search never contributes. */
  lemma BuildStrategyStepNone(g: Game)
    requires WellFormed(g) && IsValid(g)
    ensures BuildStrategyStep(g) == Ok(None) <==>
      && SolvedSquare(g).None? && HiddenSingle(g).None? && NakedSets(g).None?
      && PointingPairs(g).None? && XWing(g).None? && YWing(g) == Ok(None)
  {
    HiddenSetsNeverFire(g);
    BuildStrategyStepCascade(g);
  }
}

/** src/utils/sudoku/types.ts: the action and method enumerations, the move
    union and the human-readable reasons attached to moves. */
module Types {
  import opened Strings
  import opened Geometry
  import opened SudokuUtils

  datatype GameAction = SetAction | BlockAction | ResetAction

  datatype GameMethod =
    | InitialGame | ResetToStart | Unknown
    | SolvedSquare | HiddenSingle
    | Sudoku
    | NakedSet | HiddenSet | PointingPair | XWing | YWing

  /** `IInvalidReason` and `IBlockedReason` are empty object types. */
  datatype InvalidReason = InvalidReason
  datatype BlockedReason = BlockedReason

  /** The methods an `ISetStrategyItem` may carry. */
  datatype SetMethod = SetByInitialGame | SetBySolvedSquare | SetByHiddenSingle

  /** The methods an `IBlockStrategyItem` may carry. */
  datatype BlockMethod = BlockByNakedSet | BlockByHiddenSet | BlockByPointingPair | BlockByXWing | BlockByYWing

  /** The data each reason builder closes over; the description itself is
      rendered from it and the final list of affected cells by `Describe`. */
  datatype Reason =
    | InitialGameReason(cell: nat, value: int)
    | SolvedSquareReason(cell: nat, value: int)
    | HiddenSingleReason(cell: nat, value: int)
    | NakedSetReason(group: Group, nums: seq<int>, covered: seq<nat>)
    | HiddenSetReason(group: Group, originCells: seq<nat>, values: seq<int>)
    | PointingPairReason(group: Group, affectedGroup: Group, matching: seq<nat>, value: int)
    | XWingReason
    | YWingReason

  /** `IStrategyItem = ISetStrategyItem | IBlockStrategyItem`: a `Set` fixes
      one cell to one value; a `Block` eliminates a list of values from a
      list of cells. */
  datatype Move =
    | Set(setMethod: SetMethod, cell: nat, value: int, reason: Reason)
    | Block(blockMethod: BlockMethod, cells: seq<nat>, values: seq<int>, reason: Reason)

  function ActionOf(m: Move): (a: GameAction)
    ensures a != ResetAction
    ensures a == SetAction <==> m.Set?
  {
    match m
    case Set(_, _, _, _) => SetAction
    case Block(_, _, _, _) => BlockAction
  }

  /** The move's `method` field as a `GameMethod`. */
  function MethodOf(m: Move): (g: GameMethod)
    ensures m.Set? ==> g in {InitialGame, SolvedSquare, HiddenSingle}
    ensures m.Block? ==> g in {NakedSet, HiddenSet, PointingPair, XWing, YWing}
  {
    match m
    case Set(sm, _, _, _) =>
      (match sm
       case SetByInitialGame => InitialGame
       case SetBySolvedSquare => SolvedSquare
       case SetByHiddenSingle => HiddenSingle)
    case Block(bm, _, _, _) =>
      (match bm
       case BlockByNakedSet => NakedSet
       case BlockByHiddenSet => HiddenSet
       case BlockByPointingPair => PointingPair
       case BlockByXWing => XWing
       case BlockByYWing => YWing)
  }

  /** The two move kinds never share a method. */
  lemma MethodsDisjoint(s: Move, b: Move)
    requires s.Set? && b.Block?
    ensures MethodOf(s) != MethodOf(b)
  {
  }

  function NumList(nums: seq<int>): string
  {
    Join(seq(|nums|, i requires 0 <= i < |nums| => IntToString(nums[i])), ",")
  }

  /** The part of a description that does not depend on the affected cells. */
  function Lead(reason: Reason, size: nat): string
    requires size > 0
  {
    match reason
    case InitialGameReason(c, v) => "Initial Game " + ReadableName(size, c) + " as " + IntToString(v)
    case SolvedSquareReason(c, v) => "Solved Square " + ReadableName(size, c) + " with " + IntToString(v)
    case HiddenSingleReason(c, v) => "hidden single " + ReadableName(size, c) + " with " + IntToString(v)
    case NakedSetReason(g, nums, cells) =>
      "NAKED SET (" + GroupName(g) + "): [" + NumList(nums) + "] unique within " + Grc(size, cells) +
      ". Can be removed from remaining cells in group. Affected: "
    case HiddenSetReason(g, origin, values) =>
      "HIDDEN SET (" + GroupName(g) + "): " + Grc(size, origin) + " unique within \"" + GroupName(g) +
      "\" to have values [" + NumList(values) + "]. All other possible values can be removed from " +
      Grc(size, origin) + "."
    case PointingPairReason(g, ag, cells, v) =>
      "POINTING PAIR (" + GroupName(g) + "): " + Grc(size, cells) + " unique by having available (" +
      IntToString(v) + ") and are also contained within " + GroupName(ag) + ". (" + IntToString(v) +
      ") removed from "
    case XWingReason => "X-WING (): "
    case YWingReason => "Y-WING (): "
  }

  /** Whether the reason's text ends with the affected cells. */
  predicate NamesAffected(reason: Reason)
  {
    reason.NakedSetReason? || reason.PointingPairReason? || reason.XWingReason? || reason.YWingReason?
  }

  /** The `description` of a move with the given reason, applied to the final
      list of affected cells. */
  function Describe(reason: Reason, size: nat, affected: seq<nat>): (r: string)
    requires size > 0
    ensures |r| >= |Lead(reason, size)| && r[..|Lead(reason, size)|] == Lead(reason, size)
    ensures NamesAffected(reason) ==>
      |r| >= |Lead(reason, size)| + |Grc(size, affected)| &&
      r[|Lead(reason, size)|..|Lead(reason, size)| + |Grc(size, affected)|] == Grc(size, affected)
    ensures !NamesAffected(reason) ==> r == Lead(reason, size)
  {
    Framed(Lead(reason, size), Grc(size, affected), reason.NakedSetReason?, NamesAffected(reason))
  }

  /** The lead text, followed by the affected cells when the reason names
      them, and by a full stop for a naked set. */
  function Framed(lead: string, names: string, stop: bool, named: bool): (r: string)
    ensures |r| >= |lead| && r[..|lead|] == lead
    ensures named ==> |r| >= |lead| + |names| && r[|lead|..|lead| + |names|] == names
    ensures !named ==> r == lead
  {
    if stop && named then
      LeadingParts(lead, names, ".");
      lead + names + "."
    else if named then
      LeadingParts(lead, names, "");
      assert lead + names + "" == lead + names;
      lead + names
    else lead
  }

  /** The first two of three concatenated parts can be read back by position. */
  lemma LeadingParts(a: string, b: string, c: string)
    ensures var r := a + b + c;
      |r| >= |a| + |b| && r[..|a|] == a && r[|a|..|a| + |b|] == b
  {
    var r := a + b + c;
    assert r == a + (b + c);
    assert r[..|a|] == a;
    assert r[|a|..] == b + c;
    assert (b + c)[..|b|] == b;
  }

  /** Reasons of set moves and of hidden sets do not mention the affected
      cells: their text is the same whatever cells are passed. */
  lemma DescribeIgnoresAffected(reason: Reason, size: nat, a: seq<nat>, b: seq<nat>)
    requires size > 0
    requires reason.InitialGameReason? || reason.SolvedSquareReason? || reason.HiddenSingleReason? ||
             reason.HiddenSetReason?
    ensures Describe(reason, size, a) == Describe(reason, size, b)
  {
  }

  /** The solved-square reason names the cell and the value it receives. */
  lemma SolvedSquareWording(size: nat, c: nat, v: int, affected: seq<nat>)
    requires size > 0
    ensures var r := Describe(SolvedSquareReason(c, v), size, affected);
      r[..14] == "Solved Square " && r[14..14 + |ReadableName(size, c)|] == ReadableName(size, c) &&
      r[|r| - |IntToString(v)|..] == IntToString(v)
  {
    FourParts("Solved Square ", ReadableName(size, c), " with ", IntToString(v));
  }

  /** The hidden-single reason names the cell and the value it receives. */
  lemma HiddenSingleWording(size: nat, c: nat, v: int, affected: seq<nat>)
    requires size > 0
    ensures var r := Describe(HiddenSingleReason(c, v), size, affected);
      r[..14] == "hidden single " && r[14..14 + |ReadableName(size, c)|] == ReadableName(size, c) &&
      r[|r| - |IntToString(v)|..] == IntToString(v)
  {
    FourParts("hidden single ", ReadableName(size, c), " with ", IntToString(v));
  }

  /** The X-Wing and Y-Wing reasons read only the affected cells: their
      `grc` rendering follows a fixed prefix. */
  lemma WingsDescribeAffected(size: nat, affected: seq<nat>)
    requires size > 0 && |affected| >= 1
    ensures Split(Describe(XWingReason, size, affected)[11..], '/') == Names(size, affected)
    ensures Split(Describe(YWingReason, size, affected)[11..], '/') == Names(size, affected)
  {
    GrcNames(size, affected);
    assert Describe(XWingReason, size, affected)[11..] == Grc(size, affected);
    assert Describe(YWingReason, size, affected)[11..] == Grc(size, affected);
  }
}

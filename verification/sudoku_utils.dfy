/** src/utils/sudoku/utils.ts: the board loader, the covered-union search
    shared by the naked- and hidden-set techniques, and `grc`, which renders
    a list of cells by their readable names. */
module SudokuUtils {
  import opened Wrappers
  import opened Collections
  import opened Strings
  import opened Geometry

  /* ------------------------------ readBoardFile ------------------------------ */

  /** The argument of `readBoardFile`: an array of integers, a string, or a
      value of some other `typeof`. */
  datatype RawBoard = ArrayData(xs: seq<int>) | StringData(s: string) | OtherData(typeName: string)

  /** A JavaScript number produced by `parseInt`. */
  datatype JsNumber = Int(n: int) | NaN

  datatype LoadError = UnknownFileType(typeName: string) | InvalidBoardLength(len: nat)

  /** `s.replace(/[\n ]/, "")`: the regular expression is not global, so only
      the first newline or space goes. */
  function RemoveFirstBlank(s: string): (r: string)
    ensures ('\n' !in s && ' ' !in s) ==> r == s
    ensures |r| == |s| || |r| == |s| - 1
  {
    if |s| == 0 then s
    else if s[0] == '\n' || s[0] == ' ' then s[1..]
    else [s[0]] + RemoveFirstBlank(s[1..])
  }

  /** `s.replace(/[^0-9]/, "0")`: only the first non-digit becomes `0`. */
  function ReplaceFirstNonDigit(s: string): (r: string)
    ensures |r| == |s|
    ensures (forall i :: 0 <= i < |s| ==> IsDigit(s[i])) ==> r == s
  {
    if |s| == 0 then s
    else if !IsDigit(s[0]) then ['0'] + s[1..]
    else [s[0]] + ReplaceFirstNonDigit(s[1..])
  }

  /** `parseInt(c, 10)` of a one-character string. */
  function ParseChar(c: char): (r: JsNumber)
    ensures IsDigit(c) <==> r.Int?
    ensures IsDigit(c) ==> r == Int(DigitValue(c))
  {
    if IsDigit(c) then Int(DigitValue(c)) else NaN
  }

  function ParseChars(s: string): (r: seq<JsNumber>)
    ensures |r| == |s|
    ensures forall i :: 0 <= i < |s| ==> r[i] == ParseChar(s[i])
  {
    if |s| == 0 then [] else [ParseChar(s[0])] + ParseChars(s[1..])
  }

  function IntsOf(xs: seq<int>): (r: seq<JsNumber>)
    ensures |r| == |xs|
    ensures forall i :: 0 <= i < |xs| ==> r[i] == Int(xs[i])
  {
    if |xs| == 0 then [] else [Int(xs[0])] + IntsOf(xs[1..])
  }

  /** `readBoardFile`: normalises a string or copies an array, parses every
      element, and refuses a length that is not a fourth power. */
  function ReadBoardFile(raw: RawBoard): (r: Result<seq<JsNumber>, LoadError>)
    ensures raw.OtherData? ==> r == Err(UnknownFileType(raw.typeName))
    ensures r.Ok? ==> IsFourthPower(|r.value|)
    ensures raw.ArrayData? ==> (r.Ok? <==> IsFourthPower(|raw.xs|))
    ensures raw.ArrayData? && r.Ok? ==> r.value == IntsOf(raw.xs)
    ensures raw.StringData? && (forall i :: 0 <= i < |raw.s| ==> IsDigit(raw.s[i])) ==>
      (r.Ok? <==> IsFourthPower(|raw.s|)) &&
      (r.Ok? ==> |r.value| == |raw.s| && forall i :: 0 <= i < |raw.s| ==> r.value[i] == Int(DigitValue(raw.s[i])))
    ensures r.Err? && !raw.OtherData? ==> r.error.InvalidBoardLength?
  {
    var out :=
      match raw
      case ArrayData(xs) => Ok(IntsOf(xs))
      case StringData(s) => Ok(ParseChars(ReplaceFirstNonDigit(RemoveFirstBlank(s))))
      case OtherData(t) => Err(UnknownFileType(t));
    if out.Err? then Err(out.error)
    else if !IsFourthPower(|out.value|) then Err(InvalidBoardLength(|out.value|))
    else out
  }

  /* ---------------------------- findCoveredUnions ---------------------------- */

  predicate NoDup<T(==)>(xs: seq<T>)
  {
    forall i, j :: 0 <= i < j < |xs| ==> xs[i] != xs[j]
  }

  lemma {:induction false} FilterNoDup<T(!new)>(xs: seq<T>, p: T -> bool)
    requires NoDup(xs)
    ensures NoDup(Filter(xs, p))
  {
    if |xs| > 0 {
      FilterNoDup(xs[1..], p);
      assert xs[0] !in xs[1..];
      assert xs[0] !in Filter(xs[1..], p);
    }
  }

  function Elems<T>(xs: seq<T>): set<T>
  {
    set x | x in xs
  }

  /** The union of the accessor's values over `items`. */
  function UnionOver<T, G>(f: G -> seq<T>, items: seq<G>): set<T>
  {
    if |items| == 0 then {} else UnionOver(f, items[..|items| - 1]) + Elems(f(items[|items| - 1]))
  }

  /** A value is in the union exactly when one of the items yields it. */
  lemma {:induction false} UnionOverMembers<T, G>(f: G -> seq<T>, items: seq<G>, v: T)
    ensures v in UnionOver(f, items) <==> exists x :: x in items && v in f(x)
    decreases |items|
  {
    if |items| > 0 {
      var init := items[..|items| - 1];
      UnionOverMembers(f, init, v);
      assert forall x :: x in items <==> x in init || x == items[|items| - 1];
    }
  }

  /** `new Set([...u, ...xs])`: the insertion-ordered union, `u` first. */
  function AddAll<T(==)>(u: seq<T>, xs: seq<T>): (r: seq<T>)
    ensures Elems(r) == Elems(u) + Elems(xs)
    ensures NoDup(u) ==> NoDup(r)
    ensures |r| >= |u| && r[..|u|] == u
    decreases |xs|
  {
    if |xs| == 0 then u
    else if xs[0] in u then AddAll(u, xs[1..])
    else
      var r := AddAll(u + [xs[0]], xs[1..]);
      assert (u + [xs[0]])[..|u|] == u;
      r
  }

  /** `a` is an order-preserving subsequence of `b`. */
  predicate IsSubseq<T(==)>(a: seq<T>, b: seq<T>)
    decreases |b|
  {
    if |a| == 0 then true
    else if |b| == 0 then false
    else if a[0] == b[0] then IsSubseq(a[1..], b[1..])
    else IsSubseq(a, b[1..])
  }

  lemma {:induction false} SubseqMembers<T>(a: seq<T>, b: seq<T>, x: T)
    requires IsSubseq(a, b) && x in a
    ensures x in b
    decreases |b|
  {
    if a[0] == b[0] {
      if x != a[0] {
        assert x in a[1..];
        SubseqMembers(a[1..], b[1..], x);
      }
    } else {
      SubseqMembers(a, b[1..], x);
    }
  }

  lemma {:induction false} SubseqDrop<T>(a: seq<T>, b: seq<T>)
    requires |b| > 0 && IsSubseq(a, b[1..])
    ensures IsSubseq(a, b)
    decreases |a| + |b|, 1
  {
    if |a| > 0 && a[0] == b[0] {
      SubseqTail(a, b[1..]);
    }
  }

  lemma {:induction false} SubseqTail<T>(a: seq<T>, c: seq<T>)
    requires |a| > 0 && IsSubseq(a, c)
    ensures IsSubseq(a[1..], c)
    decreases |a| + |c|, 0
  {
    assert |c| > 0;
    if a[0] == c[0] {
      SubseqDrop(a[1..], c);
    } else {
      SubseqTail(a, c[1..]);
      SubseqDrop(a[1..], c);
    }
  }

  lemma {:induction false} SubseqSkip<T>(a: seq<T>, b: seq<T>, j: nat)
    requires j <= |b| && IsSubseq(a, b[j..])
    ensures IsSubseq(a, b)
    decreases j
  {
    if j > 0 {
      assert b[j - 1..][1..] == b[j..];
      SubseqDrop(a, b[j - 1..]);
      SubseqSkip(a, b, j - 1);
    }
  }

  /** Every list but its last element. */
  function Init<G>(list: seq<G>): seq<G>
  {
    if |list| == 0 then [] else list[..|list| - 1]
  }

  /** A result pair of the search from `covered`: a non-empty union as large
      as its covered list, equal to the accessor's union over it, and the
      covered list extends `covered` by a subsequence of `pool`. */
  ghost predicate Covering<T, G>(f: G -> seq<T>, covered: seq<G>, pool: seq<G>, p: (seq<T>, seq<G>))
  {
    && |p.0| > 0 && |p.0| == |p.1|
    && NoDup(p.0)
    && Elems(p.0) == UnionOver(f, p.1)
    && |p.1| >= |covered| && p.1[..|covered|] == covered
    && IsSubseq(p.1[|covered|..], pool)
  }

  /** `findCoveredUnions(getUnionValue, list, union, covered)`. `union` is
      the JavaScript `Set` as its insertion-ordered element list. */
  function FindCoveredUnions<T(==), G(==)>(f: G -> seq<T>, list: seq<G>, union: seq<T>, covered: seq<G>): (r: seq<(seq<T>, seq<G>)>)
    requires NoDup(union) && Elems(union) == UnionOver(f, covered)
    ensures forall p :: p in r ==> Covering(f, covered, Init(list), p)
    ensures |list| == 0 && |union| != |covered| ==> r == []
    decreases |list|, 1
  {
    if |union| > 0 && |union| == |covered| then
      assert covered[|covered|..] == [];
      [(union, covered)]
    else if |list| == 0 then []
    else CoveredUnionsFrom(f, list, union, covered, 1)
  }

  /** The `for (let i = 1; i < list.length; i += 1)` loop of the search, from `i` on:
      `list[i - 1]` joins the covered list and the search goes on in `list.slice(i)`. */
  function CoveredUnionsFrom<T(==), G(==)>(f: G -> seq<T>, list: seq<G>, union: seq<T>, covered: seq<G>, i: nat): (r: seq<(seq<T>, seq<G>)>)
    requires 1 <= i <= |list|
    requires NoDup(union) && Elems(union) == UnionOver(f, covered)
    ensures forall p :: p in r ==> Covering(f, covered, list[i - 1..|list| - 1], p)
    decreases |list|, 0, |list| - i
  {
    if i >= |list| then []
    else
      var item := list[i - 1];
      var covered' := covered + [item];
      assert covered'[..|covered'| - 1] == covered;
      var here := FindCoveredUnions(f, list[i..], AddAll(union, f(item)), covered');
      var rest := CoveredUnionsFrom(f, list, union, covered, i + 1);
      forall p | p in here ensures Covering(f, covered, list[i - 1..|list| - 1], p) {
        ExtendCovering(f, covered, item, list[i..], list[i - 1..|list| - 1], p);
      }
      forall p | p in rest ensures Covering(f, covered, list[i - 1..|list| - 1], p) {
        assert list[i - 1..|list| - 1][1..] == list[i..|list| - 1];
        SubseqSkip(p.1[|covered|..], list[i - 1..|list| - 1], 1);
      }
      here + rest
  }

  lemma ExtendCovering<T, G>(f: G -> seq<T>, covered: seq<G>, item: G, tail: seq<G>, pool: seq<G>, p: (seq<T>, seq<G>))
    requires |tail| >= 1 && |pool| >= 1 && pool[0] == item && pool[1..] == Init(tail)
    requires Covering(f, covered + [item], Init(tail), p)
    ensures Covering(f, covered, pool, p)
  {
    var c' := covered + [item];
    assert p.1[..|covered|] == p.1[..|c'|][..|covered|];
    var ext := p.1[|covered|..];
    assert ext[0] == item;
    assert ext[1..] == p.1[|c'|..];
  }

  /** Once the accumulated union covers, the search stops there and returns it. */
  lemma CoveringStops<T, G>(f: G -> seq<T>, list: seq<G>, union: seq<T>, covered: seq<G>)
    requires NoDup(union) && Elems(union) == UnionOver(f, covered)
    requires |union| > 0 && |union| == |covered|
    ensures FindCoveredUnions(f, list, union, covered) == [(union, covered)]
  {
  }

  lemma {:induction false} NoDupCard<T>(xs: seq<T>)
    requires NoDup(xs)
    ensures |Elems(xs)| == |xs|
  {
    if |xs| > 0 {
      var t := xs[..|xs| - 1];
      NoDupCard(t);
      assert Elems(xs) == Elems(t) + {xs[|xs| - 1]};
      assert xs[|xs| - 1] !in Elems(t);
    }
  }

  lemma SubseqOfOne<T>(a: seq<T>, y: T)
    requires IsSubseq(a, [y])
    ensures a == [] || a == [y]
  {
    if |a| > 0 {
      assert [y][1..] == [];
      if a[0] == y {
        assert IsSubseq(a[1..], []);
        assert |a[1..]| == 0;
      }
    }
  }

  lemma SubseqOfPair<T>(a: seq<T>, x: T, y: T)
    requires IsSubseq(a, [x, y])
    ensures a == [] || a == [x] || a == [y] || a == [x, y]
  {
    assert [x, y][1..] == [y];
    if |a| > 0 {
      if a[0] == x {
        SubseqOfOne(a[1..], y);
        assert a == [a[0]] + a[1..];
      } else {
        SubseqOfOne(a, y);
      }
    }
  }

  lemma SingletonUnion(f: seq<int> -> seq<int>, item: seq<int>)
    requires forall x :: f(x) == x
    requires item == [1, 2] || item == [2, 3]
    ensures |UnionOver(f, [item])| == 2
  {
    assert [item][..0] == [];
    assert UnionOver(f, [item]) == Elems(item);
    assert Elems(item) == {item[0], item[1]};
  }

  lemma PairUnion(f: seq<int> -> seq<int>, items: seq<seq<int>>)
    requires forall x :: f(x) == x
    requires items == [[1, 2], [2, 3]]
    ensures |UnionOver(f, items)| == 3
  {
    assert items[..1] == [[1, 2]];
    assert [[1, 2]][..0] == [];
    var a := UnionOver(f, [[1, 2]]);
    assert a == Elems(f([1, 2]));
    assert Elems([1, 2]) == {1, 2};
    assert UnionOver(f, items) == a + Elems(f([2, 3]));
    assert Elems([2, 3]) == {2, 3};
    assert UnionOver(f, items) == {1, 2, 3};
  }

  /** Three pairwise-overlapping two-element sets: the only covering needs all
      three items, and the last item is never picked, so nothing is found. */
  lemma TriangleHasNoCovering(f: seq<int> -> seq<int>, list: seq<seq<int>>)
    requires forall x :: f(x) == x
    requires list == [[1, 2], [2, 3], [1, 3]]
    ensures FindCoveredUnions(f, list, [], []) == []
  {
    var r := FindCoveredUnions(f, list, [], []);
    assert Init(list) == [[1, 2], [2, 3]];
    if |r| > 0 {
      var p := r[0];
      assert Covering(f, [], Init(list), p);
      assert p.1[0..] == p.1;
      SubseqOfPair(p.1, [1, 2], [2, 3]);
      NoDupCard(p.0);
      var u := Elems(p.0);
      assert u == UnionOver(f, p.1);
      if p.1 == [[1, 2], [2, 3]] {
        PairUnion(f, p.1);
      } else if p.1 == [[1, 2]] {
        SingletonUnion(f, [1, 2]);
      } else if p.1 == [[2, 3]] {
        SingletonUnion(f, [2, 3]);
      }
      assert false;
    }
  }

  /** The test the search makes on `union.size` and `covered.length`: the
      items' union is non-empty and exactly as large as the list of items. */
  ghost predicate Covers<T, G>(f: G -> seq<T>, items: seq<G>)
  {
    |UnionOver(f, items)| > 0 && |UnionOver(f, items)| == |items|
  }

  /** The first element of a subsequence sits at some index `k` of the
      sequence, and the rest is a subsequence of what follows `k`. */
  lemma {:induction false} SubseqHead<T>(a: seq<T>, b: seq<T>) returns (k: nat)
    requires |a| > 0 && IsSubseq(a, b)
    ensures k < |b| && b[k] == a[0] && IsSubseq(a[1..], b[k + 1..])
    decreases |b|
  {
    if a[0] == b[0] {
      k := 0;
    } else {
      var k' := SubseqHead(a, b[1..]);
      k := k' + 1;
      assert b[1..][k' + 1..] == b[k + 1..];
    }
  }

  /** The loop from `i0` collects everything the loop from a later `i` does. */
  lemma {:induction false} CoveredUnionsFromSuffix<T, G>(f: G -> seq<T>, list: seq<G>, union: seq<T>, covered: seq<G>, i0: nat, i: nat, p: (seq<T>, seq<G>))
    requires 1 <= i0 <= i <= |list|
    requires NoDup(union) && Elems(union) == UnionOver(f, covered)
    requires p in CoveredUnionsFrom(f, list, union, covered, i)
    ensures p in CoveredUnionsFrom(f, list, union, covered, i0)
    decreases i - i0
  {
    if i0 < i {
      RestInFrom(f, list, union, covered, i - 1, p);
      CoveredUnionsFromSuffix(f, list, union, covered, i0, i - 1, p);
    }
  }

  /** Completeness of the search: every order-preserving choice `c` from the
      list without its last element that extends `covered` to a covering, and
      whose shorter prefixes do not already cover, is returned. */
  lemma {:induction false} FindCoveredUnionsComplete<T, G>(f: G -> seq<T>, list: seq<G>, union: seq<T>, covered: seq<G>, c: seq<G>)
    requires NoDup(union) && Elems(union) == UnionOver(f, covered)
    requires IsSubseq(c, Init(list))
    requires Covers(f, covered + c)
    requires forall k :: 0 <= k < |c| ==> !Covers(f, covered + c[..k])
    ensures exists p :: p in FindCoveredUnions(f, list, union, covered) && p.1 == covered + c && Elems(p.0) == UnionOver(f, covered + c)
  {
    var p := CoveringFound(f, list, union, covered, c);
  }

  /** The pair the completeness lemma promises, found by following `c`
      through the rounds of the loop. */
  lemma {:induction false} CoveringFound<T, G>(f: G -> seq<T>, list: seq<G>, union: seq<T>, covered: seq<G>, c: seq<G>)
      returns (p: (seq<T>, seq<G>))
    requires NoDup(union) && Elems(union) == UnionOver(f, covered)
    requires IsSubseq(c, Init(list))
    requires Covers(f, covered + c)
    requires forall k :: 0 <= k < |c| ==> !Covers(f, covered + c[..k])
    ensures p in FindCoveredUnions(f, list, union, covered)
    ensures p.1 == covered + c && Elems(p.0) == UnionOver(f, covered + c)
    decreases |c|
  {
    NoDupCard(union);
    if |c| == 0 {
      assert covered + c == covered;
      p := (union, covered);
    } else {
      assert !Covers(f, covered) by { assert covered + c[..0] == covered; }
      var k := SubseqHead(c, Init(list));
      var covered' := covered + [list[k]];
      var union' := AddAll(union, f(list[k]));
      StepFacts(f, list, union, covered, c, k);
      p := CoveringFound(f, list[k + 1..], union', covered', c[1..]);
      HereInFrom(f, list, union, covered, k + 1, p);
      CoveredUnionsFromSuffix(f, list, union, covered, 1, k + 1, p);
    }
  }

  /** Picking the head of `c` at index `k` leaves the rest of `c` to the
      search from `covered + [list[k]]`, with every requirement of the
      completeness lemma met. */
  lemma StepFacts<T, G>(f: G -> seq<T>, list: seq<G>, union: seq<T>, covered: seq<G>, c: seq<G>, k: nat)
    requires NoDup(union) && Elems(union) == UnionOver(f, covered)
    requires |c| > 0 && k < |Init(list)| && Init(list)[k] == c[0] && IsSubseq(c[1..], Init(list)[k + 1..])
    requires forall j :: 0 <= j < |c| ==> !Covers(f, covered + c[..j])
    ensures k + 1 < |list| && list[k] == c[0]
    ensures NoDup(AddAll(union, f(list[k])))
    ensures Elems(AddAll(union, f(list[k]))) == UnionOver(f, covered + [list[k]])
    ensures IsSubseq(c[1..], Init(list[k + 1..]))
    ensures covered + [list[k]] + c[1..] == covered + c
    ensures forall j :: 0 <= j < |c[1..]| ==> !Covers(f, covered + [list[k]] + c[1..][..j])
  {
    var covered' := covered + [list[k]];
    assert covered'[..|covered'| - 1] == covered;
    assert Init(list[k + 1..]) == Init(list)[k + 1..];
    PrefixesShift(f, covered, c);
  }

  /** The rounds after `i` are part of the loop from `i`. */
  lemma RestInFrom<T, G>(f: G -> seq<T>, list: seq<G>, union: seq<T>, covered: seq<G>, i: nat, p: (seq<T>, seq<G>))
    requires 1 <= i < |list|
    requires NoDup(union) && Elems(union) == UnionOver(f, covered)
    requires p in CoveredUnionsFrom(f, list, union, covered, i + 1)
    ensures p in CoveredUnionsFrom(f, list, union, covered, i)
  {
  }

  /** What the search finds after `list[i - 1]` joins the covered list is
      collected by the loop from `i`. */
  lemma HereInFrom<T, G>(f: G -> seq<T>, list: seq<G>, union: seq<T>, covered: seq<G>, i: nat, p: (seq<T>, seq<G>))
    requires 1 <= i < |list|
    requires NoDup(union) && Elems(union) == UnionOver(f, covered)
    requires Elems(AddAll(union, f(list[i - 1]))) == UnionOver(f, covered + [list[i - 1]])
    requires p in FindCoveredUnions(f, list[i..], AddAll(union, f(list[i - 1])), covered + [list[i - 1]])
    ensures p in CoveredUnionsFrom(f, list, union, covered, i)
  {
  }

  /** The prefixes of `c` after its head, seen from `covered + [c[0]]`. */
  lemma PrefixesShift<T, G>(f: G -> seq<T>, covered: seq<G>, c: seq<G>)
    requires |c| > 0
    requires forall k :: 0 <= k < |c| ==> !Covers(f, covered + c[..k])
    ensures forall j :: 0 <= j < |c[1..]| ==> !Covers(f, covered + [c[0]] + c[1..][..j])
  {
    forall j | 0 <= j < |c[1..]|
      ensures !Covers(f, covered + [c[0]] + c[1..][..j])
    {
      assert covered + [c[0]] + c[1..][..j] == covered + c[..j + 1];
    }
  }

  /** The search over an empty list from nothing finds nothing. */
  lemma EmptyListNoCovering<T, G>(f: G -> seq<T>)
    ensures FindCoveredUnions(f, [], [], []) == []
  {
  }

  /* ----------------------------------- grc ----------------------------------- */

  function Names(size: nat, cells: seq<nat>): (r: seq<string>)
    requires size > 0
    ensures |r| == |cells|
    ensures forall j :: 0 <= j < |cells| ==> r[j] == ReadableName(size, cells[j])
  {
    seq(|cells|, j requires 0 <= j < |cells| => ReadableName(size, cells[j]))
  }

  /** `grc` (`getReableCells`): the cells' readable names joined by `/`. */
  function Grc(size: nat, cells: seq<nat>): string
    requires size > 0
  {
    Join(Names(size, cells), "/")
  }

  /** Splitting a `grc` rendering on `/` gives back every cell's readable name, in order. */
  lemma GrcNames(size: nat, cells: seq<nat>)
    requires size > 0 && |cells| >= 1
    ensures Split(Grc(size, cells), '/') == Names(size, cells)
  {
    SplitJoin(Names(size, cells), '/');
  }
}

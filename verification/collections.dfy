/** The small array and object helpers of src/utils/index.ts. JavaScript
    arrays are sequences; a plain object is a key list (the order of
    `Object.keys`) together with the key-to-value map. */
module Collections {
  import opened Wrappers

  /** Keeps the elements of `xs` satisfying `p`, in order (`Array.prototype.filter`). */
  function Filter<T(!new)>(xs: seq<T>, p: T -> bool): (r: seq<T>)
    ensures |r| <= |xs|
    ensures forall x :: x in r <==> x in xs && p(x)
    ensures forall i :: 0 <= i < |r| ==> p(r[i])
  {
    if |xs| == 0 then [] else if p(xs[0]) then [xs[0]] + Filter(xs[1..], p) else Filter(xs[1..], p)
  }

  lemma SingletonSeq<T>(s: seq<T>)
    requires |s| == 1
    ensures s == [s[0]]
  { }

  /** A filter that exactly one element passes keeps just that element. */
  lemma {:induction false} FilterUnique<T(!new)>(xs: seq<T>, p: T -> bool, j: nat)
    requires j < |xs|
    requires forall i :: 0 <= i < |xs| ==> (p(xs[i]) <==> i == j)
    ensures Filter(xs, p) == [xs[j]]
  {
    if j == 0 {
      FilterNone(xs[1..], p);
    } else {
      FilterUnique(xs[1..], p, j - 1);
    }
  }

  lemma {:induction false} FilterNone<T(!new)>(xs: seq<T>, p: T -> bool)
    requires forall i :: 0 <= i < |xs| ==> !p(xs[i])
    ensures Filter(xs, p) == []
  {
    if |xs| > 0 {
      FilterNone(xs[1..], p);
    }
  }

  /** `range(start, end)`: `Array.from({length: end - start}, (v, k) => k + start)`.
      A negative length is clamped to zero by `Array.from`. */
  function Range(start: int, end: int): (r: seq<int>)
    ensures |r| == if end >= start then end - start else 0
    ensures forall k :: 0 <= k < |r| ==> r[k] == start + k
    decreases end - start
  {
    if start >= end then [] else [start] + Range(start + 1, end)
  }

  lemma AppendAssoc<T>(a: seq<T>, b: seq<T>, c: seq<T>)
    ensures (a + b) + c == a + (b + c)
  {
  }

  lemma {:induction false} FilterAppend<T(!new)>(a: seq<T>, b: seq<T>, p: T -> bool)
    ensures Filter(a + b, p) == Filter(a, p) + Filter(b, p)
  {
    if |a| > 0 {
      assert (a + b)[1..] == a[1..] + b;
      FilterAppend(a[1..], b, p);
    } else {
      assert a + b == b;
    }
  }

  /** Filtering by a weaker predicate first changes nothing. */
  lemma {:induction false} FilterTwice<T(!new)>(xs: seq<T>, p: T -> bool, q: T -> bool)
    requires forall x :: x in xs && q(x) ==> p(x)
    ensures Filter(Filter(xs, p), q) == Filter(xs, q)
  {
    if |xs| > 0 {
      FilterTwice(xs[1..], p, q);
    }
  }

  /** Filters by pointwise-equivalent predicates agree. */
  lemma {:induction false} FilterSame<T(!new)>(xs: seq<T>, p: T -> bool, q: T -> bool)
    requires forall x :: x in xs ==> (p(x) <==> q(x))
    ensures Filter(xs, p) == Filter(xs, q)
  {
    if |xs| > 0 {
      FilterSame(xs[1..], p, q);
    }
  }

  /** A stronger predicate keeps no more elements; strictly fewer when some
      element passes only the weaker one. */
  lemma {:induction false} FilterShrinks<T(!new)>(xs: seq<T>, p: T -> bool, q: T -> bool)
    requires forall x :: x in xs && p(x) ==> q(x)
    ensures |Filter(xs, p)| <= |Filter(xs, q)|
    ensures (exists x :: x in xs && q(x) && !p(x)) ==> |Filter(xs, p)| < |Filter(xs, q)|
  {
    if |xs| > 0 {
      FilterShrinks(xs[1..], p, q);
      if exists x :: x in xs && q(x) && !p(x) {
        var x :| x in xs && q(x) && !p(x);
        if x != xs[0] {
          assert x in xs[1..];
        }
      }
    }
  }

  predicate Increasing(xs: seq<int>)
  {
    forall i, j :: 0 <= i < j < |xs| ==> xs[i] < xs[j]
  }

  lemma {:induction false} FilterIncreasing(xs: seq<int>, p: int -> bool)
    requires Increasing(xs)
    ensures Increasing(Filter(xs, p))
  {
    if |xs| > 0 {
      IncreasingTail(xs);
      FilterIncreasing(xs[1..], p);
      if p(xs[0]) {
        IncreasingCons(xs[0], Filter(xs[1..], p));
      }
    }
  }

  /** The tail of an increasing sequence is increasing and above the head. */
  lemma IncreasingTail(xs: seq<int>)
    requires Increasing(xs) && |xs| > 0
    ensures Increasing(xs[1..])
    ensures forall x :: x in xs[1..] ==> xs[0] < x
  {
    forall x | x in xs[1..]
      ensures xs[0] < x
    {
      var t :| 0 <= t < |xs[1..]| && xs[1..][t] == x;
      assert xs[t + 1] == x;
    }
    forall i, j | 0 <= i < j < |xs[1..]|
      ensures xs[1..][i] < xs[1..][j]
    {
      assert xs[1..][i] == xs[i + 1] && xs[1..][j] == xs[j + 1];
    }
  }

  /** An element below every element of an increasing sequence can lead it. */
  lemma IncreasingCons(y: int, rest: seq<int>)
    requires Increasing(rest) && forall x :: x in rest ==> y < x
    ensures Increasing([y] + rest)
  {
    var r := [y] + rest;
    forall i, j | 0 <= i < j < |r|
      ensures r[i] < r[j]
    {
      if i > 0 {
        assert r[i] == rest[i - 1] && r[j] == rest[j - 1];
      } else {
        assert r[j] in rest;
      }
    }
  }

  predicate SortedBy<T>(xs: seq<T>, key: T -> nat)
  {
    forall i, j :: 0 <= i < j < |xs| ==> key(xs[i]) <= key(xs[j])
  }

  function KeyIs<T>(key: T -> nat, c: nat): T -> bool
  {
    x => key(x) == c
  }

  /** Inserts `x` after every element whose key is at most its own. */
  function InsertBy<T>(ys: seq<T>, x: T, key: T -> nat): (r: seq<T>)
    ensures multiset(r) == multiset(ys) + multiset{x}
    ensures forall z :: z in r ==> z in ys || z == x
    ensures SortedBy(ys, key) ==> SortedBy(r, key)
  {
    if |ys| == 0 then [x]
    else if key(x) < key(ys[0]) then
      [x] + ys
    else
      var rest := InsertBy(ys[1..], x, key);
      assert ys == [ys[0]] + ys[1..];
      InsertStep(ys, x, key, rest);
      [ys[0]] + rest
  }

  /** Keeping the head in front of the insertion into the tail keeps the
      order, since the head's key is at most `x`'s. */
  lemma InsertStep<T>(ys: seq<T>, x: T, key: T -> nat, rest: seq<T>)
    requires |ys| > 0 && key(ys[0]) <= key(x)
    requires forall z :: z in rest ==> z in ys[1..] || z == x
    requires SortedBy(ys[1..], key) ==> SortedBy(rest, key)
    ensures SortedBy(ys, key) ==> SortedBy([ys[0]] + rest, key)
  {
    if SortedBy(ys, key) {
      assert SortedBy(ys[1..], key) by {
        forall i, j | 0 <= i < j < |ys[1..]|
          ensures key(ys[1..][i]) <= key(ys[1..][j])
        {
          assert ys[1..][i] == ys[i + 1] && ys[1..][j] == ys[j + 1];
        }
      }
      forall z | z in rest
        ensures key(ys[0]) <= key(z)
      {
        if z != x {
          var j :| 0 <= j < |ys[1..]| && ys[1..][j] == z;
          assert z == ys[j + 1];
        }
      }
      var r := [ys[0]] + rest;
      forall i, j | 0 <= i < j < |r|
        ensures key(r[i]) <= key(r[j])
      {
        if i == 0 {
          assert r[j] in rest;
        } else {
          assert r[i] == rest[i - 1] && r[j] == rest[j - 1];
        }
      }
    }
  }

  /** `Array.prototype.sort` with a key comparator: a stable insertion sort. */
  function StableSortBy<T>(xs: seq<T>, key: T -> nat): (r: seq<T>)
    ensures multiset(r) == multiset(xs)
    ensures SortedBy(r, key)
  {
    if |xs| == 0 then []
    else
      assert xs == xs[..|xs| - 1] + [xs[|xs| - 1]];
      InsertBy(StableSortBy(xs[..|xs| - 1], key), xs[|xs| - 1], key)
  }

  lemma {:induction false} InsertKeepsTies<T(!new)>(ys: seq<T>, x: T, key: T -> nat, c: nat)
    requires SortedBy(ys, key)
    ensures Filter(InsertBy(ys, x, key), KeyIs(key, c)) == Filter(ys, KeyIs(key, c)) + Filter([x], KeyIs(key, c))
  {
    var p := KeyIs(key, c);
    if |ys| > 0 {
      if key(x) < key(ys[0]) {
        if p(x) {
          forall i | 0 <= i < |ys|
            ensures !p(ys[i])
          {
            assert key(ys[0]) <= key(ys[i]);
          }
          FilterNone(ys, p);
        }
        assert InsertBy(ys, x, key) == [x] + ys;
        FilterAppend([x], ys, p);
      } else {
        var rest := InsertBy(ys[1..], x, key);
        assert InsertBy(ys, x, key) == [ys[0]] + rest;
        SortedTail(ys, key);
        InsertKeepsTies(ys[1..], x, key, c);
        FilterAppend([ys[0]], rest, p);
        assert ys == [ys[0]] + ys[1..];
        FilterAppend([ys[0]], ys[1..], p);
        AppendAssoc(Filter([ys[0]], p), Filter(ys[1..], p), Filter([x], p));
      }
    }
  }

  lemma SortedTail<T>(ys: seq<T>, key: T -> nat)
    requires |ys| > 0 && SortedBy(ys, key)
    ensures SortedBy(ys[1..], key)
  {
    forall i, j | 0 <= i < j < |ys[1..]|
      ensures key(ys[1..][i]) <= key(ys[1..][j])
    {
      assert ys[1..][i] == ys[i + 1] && ys[1..][j] == ys[j + 1];
    }
  }

  /** Stability: the elements sharing any one key keep their input order. */
  lemma {:induction false} StableSortKeepsTies<T(!new)>(xs: seq<T>, key: T -> nat, c: nat)
    ensures Filter(StableSortBy(xs, key), KeyIs(key, c)) == Filter(xs, KeyIs(key, c))
  {
    if |xs| > 0 {
      var init, last := xs[..|xs| - 1], xs[|xs| - 1];
      StableSortKeepsTies(init, key, c);
      InsertKeepsTies(StableSortBy(init, key), last, key, c);
      assert xs == init + [last];
      FilterAppend(init, [last], KeyIs(key, c));
    }
  }

  lemma RangeMembers(start: int, end: int)
    ensures forall v :: v in Range(start, end) <==> start <= v < end
  {
    var r := Range(start, end);
    forall v | start <= v < end
      ensures v in r
    {
      assert r[v - start] == v;
    }
  }

  /** `range(n)` with the second argument omitted: 0, 1, ..., n - 1. */
  function RangeTo(n: int): (r: seq<int>)
    ensures |r| == if n >= 0 then n else 0
    ensures forall k :: 0 <= k < |r| ==> r[k] == k
  {
    Range(0, n)
  }

  /** `arraysOverlap`: the filter of `a` by membership in `b` is non-empty. */
  function Overlap<T(==)>(a: seq<T>, b: seq<T>): (r: bool)
    ensures r <==> exists i :: 0 <= i < |a| && a[i] in b
  {
    if |a| == 0 then false
    else if a[0] in b then true
    else
      assert forall i :: 1 <= i < |a| ==> a[i] == a[1..][i - 1];
      Overlap(a[1..], b)
  }

  /** `arraysLooslyEqual`: same length and every element of `a` occurs in `b`. */
  function LooselyEqual<T(==)>(a: seq<T>, b: seq<T>): (r: bool)
    ensures r <==> |a| == |b| && forall i :: 0 <= i < |a| ==> a[i] in b
  {
    |a| == |b| && AllIn(a, b)
  }

  function AllIn<T(==)>(a: seq<T>, b: seq<T>): (r: bool)
    ensures r <==> forall i :: 0 <= i < |a| ==> a[i] in b
  {
    if |a| == 0 then true
    else
      assert forall i :: 1 <= i < |a| ==> a[i] == a[1..][i - 1];
      a[0] in b && AllIn(a[1..], b)
  }

  /** Loose equality is not multiset equality: repeated elements of `a` may
      stand for distinct elements of `b`. */
  lemma LooselyEqualIsNotPermutation()
    ensures LooselyEqual([1, 1], [1, 2])
    ensures multiset([1, 1]) != multiset([1, 2])
  {
    assert 1 in [1, 2];
    assert multiset([1, 1])[1] == 2;
  }

  /** `arraysExactlyEqual`: same length and pointwise equal. */
  function ExactlyEqual<T(==)>(a: seq<T>, b: seq<T>): (r: bool)
    ensures r <==> a == b
  {
    |a| == |b| && PointwiseEqual(a, b)
  }

  function PointwiseEqual<T(==)>(a: seq<T>, b: seq<T>): (r: bool)
    requires |a| == |b|
    ensures r <==> forall i :: 0 <= i < |a| ==> b[i] == a[i]
  {
    if |a| == 0 then true
    else
      assert forall i :: 1 <= i < |a| ==> a[i] == a[1..][i - 1] && b[i] == b[1..][i - 1];
      b[0] == a[0] && PointwiseEqual(a[1..], b[1..])
  }

  /** `findLastIndex`: scans down from the end, returning the first index the
      predicate accepts, or -1. */
  method FindLastIndex<T>(a: seq<T>, p: (T, int, seq<T>) -> bool) returns (r: int)
    ensures -1 <= r < |a|
    ensures r >= 0 ==> p(a[r], r, a)
    ensures forall j :: r < j < |a| ==> !p(a[j], j, a)
  {
    var l := |a|;
    while l > 0
      invariant 0 <= l <= |a|
      invariant forall j :: l <= j < |a| ==> !p(a[j], j, a)
    {
      l := l - 1;
      if p(a[l], l, a) {
        return l;
      }
    }
    return -1;
  }

  /** An element of the argument of `flattenArray`: an array, spliced in, or
      anything else, kept as one element. */
  datatype Item<T> = Single(x: T) | Nested(xs: seq<T>)

  function Elements<T>(it: Item<T>): seq<T>
  {
    match it
    case Single(x) => [x]
    case Nested(xs) => xs
  }

  /** `flattenArray`: one level of flattening, in order. */
  function Flatten<T(!new)>(items: seq<Item<T>>): (r: seq<T>)
    ensures forall x :: x in r <==> exists i :: 0 <= i < |items| && x in Elements(items[i])
  {
    if |items| == 0 then []
    else
      var rest := Flatten(items[..|items| - 1]);
      assert forall i :: 0 <= i < |items| - 1 ==> items[..|items| - 1][i] == items[i];
      rest + Elements(items[|items| - 1])
  }

  lemma {:induction false} FlattenAppend<T(!new)>(a: seq<Item<T>>, b: seq<Item<T>>)
    ensures Flatten(a + b) == Flatten(a) + Flatten(b)
    decreases |b|
  {
    if |b| == 0 {
      assert a + b == a;
    } else {
      var b', last := b[..|b| - 1], b[|b| - 1];
      assert (a + b)[..|a + b| - 1] == a + b';
      assert (a + b)[|a + b| - 1] == last;
      FlattenAppend(a, b');
      assert Flatten(a + b) == Flatten(a + b') + Elements(last);
      assert Flatten(b) == Flatten(b') + Elements(last);
      AppendAssoc(Flatten(a), Flatten(b'), Elements(last));
    }
  }

  /** A plain JavaScript object: its own keys in `Object.keys` order and the
      key-to-value map. */
  datatype JsObject<T> = JsObject(keys: seq<string>, entries: map<string, T>)
  {
    ghost predicate Valid()
    {
      (forall k :: k in keys <==> k in entries) &&
      (forall i, j :: 0 <= i < j < |keys| ==> keys[i] != keys[j])
    }
  }

  /** `objectMap`: folds over the keys, storing `mapFn(value, key)`. */
  function ObjectMap<S, R>(obj: JsObject<S>, mapFn: (S, string) -> R): (r: JsObject<R>)
    requires obj.Valid()
    ensures r.Valid()
    ensures r.keys == obj.keys
    ensures forall k :: k in r.entries ==> k in obj.entries && r.entries[k] == mapFn(obj.entries[k], k)
  {
    JsObject(obj.keys, MapKeys(obj.keys, obj.entries, mapFn))
  }

  function MapKeys<S, R>(keys: seq<string>, m: map<string, S>, mapFn: (S, string) -> R): (r: map<string, R>)
    requires forall k :: k in keys ==> k in m
    ensures forall k :: k in r <==> k in keys
    ensures forall k :: k in r ==> r[k] == mapFn(m[k], k)
  {
    if |keys| == 0 then map[]
    else
      var prev := MapKeys(keys[..|keys| - 1], m, mapFn);
      var k := keys[|keys| - 1];
      prev[k := mapFn(m[k], k)]
  }

  /** `objectFilter`: folds over the keys, copying the entries the predicate accepts. */
  function ObjectFilter<S>(obj: JsObject<S>, filterFn: (S, string) -> bool): (r: JsObject<S>)
    requires obj.Valid()
    ensures r.Valid()
    ensures forall k :: k in r.entries <==> k in obj.entries && filterFn(obj.entries[k], k)
    ensures forall k :: k in r.entries ==> r.entries[k] == obj.entries[k]
    ensures forall i :: 0 <= i < |r.keys| ==> r.keys[i] in obj.keys
  {
    var ks := FilterKeys(obj.keys, obj.entries, filterFn);
    JsObject(ks, map k | k in ks :: obj.entries[k])
  }

  function FilterKeys<S>(keys: seq<string>, m: map<string, S>, filterFn: (S, string) -> bool): (r: seq<string>)
    requires forall k :: k in keys ==> k in m
    requires forall i, j :: 0 <= i < j < |keys| ==> keys[i] != keys[j]
    ensures forall k :: k in r <==> k in keys && filterFn(m[k], k)
    ensures forall i, j :: 0 <= i < j < |r| ==> r[i] != r[j]
  {
    if |keys| == 0 then []
    else
      var prev := FilterKeys(keys[..|keys| - 1], m, filterFn);
      var k := keys[|keys| - 1];
      assert k !in keys[..|keys| - 1];
      if filterFn(m[k], k) then prev + [k] else prev
  }

  /** The JavaScript values `exists` is applied to. */
  datatype JsValue = Null | Undefined | Str(s: string) | Num(n: int) | Bool(b: bool) | Object

  /** `exists`: false exactly for `null`, `undefined` and the empty string. */
  function Exists(e: JsValue): (r: bool)
    ensures !r <==> e in {Null, Undefined, Str("")}
  {
    e != Null && e != Undefined && e != Str("")
  }

  /** Unlike JavaScript truthiness, `exists` accepts every number, 0 included,
      and `false`. */
  lemma ExistsNumbers(n: int)
    ensures Exists(Num(n)) && Exists(Num(0)) && Exists(Bool(false))
  {
  }

  /* ------------------------------ Searches ------------------------------ */

  /** The first index from `i` below `n` where `p` holds, or `n`. */
  function FirstWhere(p: nat -> bool, i: nat, n: nat): (r: nat)
    requires i <= n
    ensures i <= r <= n
    ensures forall j :: i <= j < r ==> !p(j)
    ensures r < n ==> p(r)
    decreases n - i
  {
    if i == n || p(i) then i else FirstWhere(p, i + 1, n)
  }

  /** `Array.prototype.find`: the first element satisfying `p`. */
  function Find<T>(xs: seq<T>, p: T -> bool): (r: Option<T>)
    ensures r.None? <==> forall i :: 0 <= i < |xs| ==> !p(xs[i])
    ensures r.Some? ==>
      exists i :: 0 <= i < |xs| && xs[i] == r.value && p(xs[i]) && forall j :: 0 <= j < i ==> !p(xs[j])
  {
    if |xs| == 0 then None
    else if p(xs[0]) then Some(xs[0])
    else
      var r := Find(xs[1..], p);
      assert forall i :: 1 <= i < |xs| ==> xs[i] == xs[1..][i - 1];
      r
  }

  /** A `for … of` loop that returns `f(x)` for the first element whose
      result is not `null`, and `null` when there is none. */
  function FirstSome<T, U>(xs: seq<T>, f: T -> Option<U>): Option<U>
  {
    if |xs| == 0 then None
    else if f(xs[0]).Some? then f(xs[0])
    else FirstSome(xs[1..], f)
  }

  /** The loop returns `null` exactly when every element gives `null`, and
      otherwise the result of the first element that does not. */
  lemma {:induction false} FirstSomeSpec<T, U>(xs: seq<T>, f: T -> Option<U>)
    ensures FirstSome(xs, f).None? <==> forall i :: 0 <= i < |xs| ==> f(xs[i]).None?
    ensures FirstSome(xs, f).Some? ==>
      exists i :: 0 <= i < |xs| && f(xs[i]) == FirstSome(xs, f) && forall j :: 0 <= j < i ==> f(xs[j]).None?
  {
    if |xs| > 0 && f(xs[0]).None? {
      var r := FirstSome(xs[1..], f);
      FirstSomeSpec(xs[1..], f);
      assert forall i :: 1 <= i < |xs| ==> xs[i] == xs[1..][i - 1];
      if r.Some? {
        var t :| 0 <= t < |xs[1..]| && f(xs[1..][t]) == r && forall j :: 0 <= j < t ==> f(xs[1..][j]).None?;
        assert f(xs[t + 1]) == r;
        assert forall j :: 0 <= j < t + 1 ==> f(xs[j]).None? by {
          forall j | 0 <= j < t + 1
            ensures f(xs[j]).None?
          {
            if j > 0 {
              assert xs[j] == xs[1..][j - 1];
            }
          }
        }
      }
    }
  }

  /** The elements of a seven-element display. */
  lemma SevenElements<T>(a: T, b: T, c: T, d: T, e: T, f: T, g: T)
    ensures var s := [a, b, c, d, e, f, g];
      |s| == 7 && s[0] == a && s[1] == b && s[2] == c && s[3] == d && s[4] == e && s[5] == f && s[6] == g
  { }

  /** Any element of a seven-element display is one of the seven. */
  lemma SevenAt<T>(a: T, b: T, c: T, d: T, e: T, f: T, g: T, i: int)
    requires 0 <= i < 7
    ensures var s := [a, b, c, d, e, f, g];
      s[i] == a || s[i] == b || s[i] == c || s[i] == d || s[i] == e || s[i] == f || s[i] == g
  { }

  /** A loop over seven elements, unrolled. */
  lemma {:induction false} FirstSomeSeven<T, U>(xs: seq<T>, f: T -> Option<U>)
    requires |xs| == 7
    ensures FirstSome(xs, f) ==
      if f(xs[0]).Some? then f(xs[0]) else if f(xs[1]).Some? then f(xs[1])
      else if f(xs[2]).Some? then f(xs[2]) else if f(xs[3]).Some? then f(xs[3])
      else if f(xs[4]).Some? then f(xs[4]) else if f(xs[5]).Some? then f(xs[5])
      else f(xs[6])
  {
    assert xs[1..][0] == xs[1] && xs[2..][0] == xs[2] && xs[3..][0] == xs[3];
    assert xs[4..][0] == xs[4] && xs[5..][0] == xs[5] && xs[6..][0] == xs[6];
    assert xs[1..][1..] == xs[2..] && xs[2..][1..] == xs[3..] && xs[3..][1..] == xs[4..];
    assert xs[4..][1..] == xs[5..] && xs[5..][1..] == xs[6..] && xs[6..][1..] == [];
    assert FirstSome(xs[6..], f) == f(xs[6]);
    assert FirstSome(xs[5..], f) == if f(xs[5]).Some? then f(xs[5]) else FirstSome(xs[6..], f);
    assert FirstSome(xs[4..], f) == if f(xs[4]).Some? then f(xs[4]) else FirstSome(xs[5..], f);
    assert FirstSome(xs[3..], f) == if f(xs[3]).Some? then f(xs[3]) else FirstSome(xs[4..], f);
    assert FirstSome(xs[2..], f) == if f(xs[2]).Some? then f(xs[2]) else FirstSome(xs[3..], f);
    assert FirstSome(xs[1..], f) == if f(xs[1]).Some? then f(xs[1]) else FirstSome(xs[2..], f);
  }

  /** The element that decides a loop with a result. */
  lemma FirstSomeWitness<T, U>(xs: seq<T>, f: T -> Option<U>) returns (i: nat)
    requires FirstSome(xs, f).Some?
    ensures i < |xs| && f(xs[i]) == FirstSome(xs, f)
    ensures forall j :: 0 <= j < i ==> f(xs[j]).None?
  {
    FirstSomeSpec(xs, f);
    i :| 0 <= i < |xs| && f(xs[i]) == FirstSome(xs, f) && forall j :: 0 <= j < i ==> f(xs[j]).None?;
  }

  /** Whatever holds of every non-`null` result holds of the loop's result. */
  lemma FirstSomeHolds<T, U>(xs: seq<T>, f: T -> Option<U>, P: U -> bool)
    requires forall i :: 0 <= i < |xs| && f(xs[i]).Some? ==> P(f(xs[i]).value)
    ensures FirstSome(xs, f).Some? ==> P(FirstSome(xs, f).value)
  {
    if FirstSome(xs, f).Some? {
      var i := FirstSomeWitness(xs, f);
    }
  }

  /** A result that neither returned an item nor threw. */
  predicate Nothing<U, E>(r: Result<Option<U>, E>)
  {
    r.Ok? && r.value.None?
  }

  /** A `for … of` loop whose body may return an item or throw: the first
      element whose result is an item or an error decides, and the loop
      falls through to `null` when there is none. */
  function FirstFound<T, U, E>(xs: seq<T>, f: T -> Result<Option<U>, E>): Result<Option<U>, E>
  {
    if |xs| == 0 then Ok(None)
    else if !Nothing(f(xs[0])) then f(xs[0])
    else FirstFound(xs[1..], f)
  }

  /** The loop falls through exactly when no element returns or throws, and
      otherwise ends with the result of the first element that does. */
  lemma {:induction false} FirstFoundSpec<T, U, E>(xs: seq<T>, f: T -> Result<Option<U>, E>)
    ensures Nothing(FirstFound(xs, f)) <==> forall i :: 0 <= i < |xs| ==> Nothing(f(xs[i]))
    ensures !Nothing(FirstFound(xs, f)) ==>
      exists i :: 0 <= i < |xs| && f(xs[i]) == FirstFound(xs, f) && forall j :: 0 <= j < i ==> Nothing(f(xs[j]))
  {
    if |xs| > 0 && Nothing(f(xs[0])) {
      var r := FirstFound(xs[1..], f);
      FirstFoundSpec(xs[1..], f);
      assert forall i :: 1 <= i < |xs| ==> xs[i] == xs[1..][i - 1];
      if !Nothing(r) {
        var t :| 0 <= t < |xs[1..]| && f(xs[1..][t]) == r && forall j :: 0 <= j < t ==> Nothing(f(xs[1..][j]));
        assert f(xs[t + 1]) == r;
        assert forall j :: 0 <= j < t + 1 ==> Nothing(f(xs[j])) by {
          forall j | 0 <= j < t + 1
            ensures Nothing(f(xs[j]))
          {
            if j > 0 {
              assert xs[j] == xs[1..][j - 1];
            }
          }
        }
      }
    }
  }

  /** Whatever holds of the fall-through and of every element's result holds
      of the loop's result. */
  lemma FirstFoundHolds<T, U, E>(xs: seq<T>, f: T -> Result<Option<U>, E>, P: Result<Option<U>, E> -> bool)
    requires P(Ok(None))
    requires forall i :: 0 <= i < |xs| ==> P(f(xs[i]))
    ensures P(FirstFound(xs, f))
  {
    FirstFoundSpec(xs, f);
    if !Nothing(FirstFound(xs, f)) {
      var i :| 0 <= i < |xs| && f(xs[i]) == FirstFound(xs, f);
    }
  }

  /** `FirstSome` over the indices `0 .. n - 1` in order. */
  lemma FirstSomeIndices<U>(xs: seq<nat>, f: nat -> Option<U>)
    requires forall i :: 0 <= i < |xs| ==> xs[i] == i
    ensures FirstSome(xs, f).None? <==> forall i: nat :: i < |xs| ==> f(i).None?
    ensures FirstSome(xs, f).Some? ==>
      exists i: nat :: i < |xs| && f(i) == FirstSome(xs, f) && forall j: nat :: j < i ==> f(j).None?
  {
    FirstSomeSpec(xs, f);
    if FirstSome(xs, f).Some? {
      var i :| 0 <= i < |xs| && f(xs[i]) == FirstSome(xs, f) && forall j :: 0 <= j < i ==> f(xs[j]).None?;
      assert xs[i] == i;
      forall j: nat | j < i
        ensures f(j).None?
      {
        assert xs[j] == j;
      }
    } else {
      forall i: nat | i < |xs|
        ensures f(i).None?
      {
        assert xs[i] == i;
        assert f(xs[i]).None?;
      }
    }
  }

  /** The inner loop `for (j = i + 1; j < list.length; j++)` of a scan over
      the pairs of a list, from `j` on: the first pair whose result is an
      item. */
  function PairScanFrom<T, U>(pair: (T, T) -> Option<U>, list: seq<T>, i: nat, j: nat): Option<U>
    requires i < |list|
    decreases |list| - j
  {
    if j >= |list| then None
    else if pair(list[i], list[j]).Some? then pair(list[i], list[j])
    else PairScanFrom(pair, list, i, j + 1)
  }

  /** The outer loop `for (i = 0; i < list.length; i++)`, from `i` on. */
  function PairScanRows<T, U>(pair: (T, T) -> Option<U>, list: seq<T>, i: nat): Option<U>
    decreases |list| - i
  {
    if i >= |list| then None
    else if PairScanFrom(pair, list, i, i + 1).Some? then PairScanFrom(pair, list, i, i + 1)
    else PairScanRows(pair, list, i + 1)
  }

  /** Both loops: the pairs `(list[i], list[j])` with `i < j`, `i` major. */
  function PairScan<T, U>(pair: (T, T) -> Option<U>, list: seq<T>): Option<U>
  {
    PairScanRows(pair, list, 0)
  }

  lemma {:induction false} PairScanFromHolds<T, U>(pair: (T, T) -> Option<U>, list: seq<T>, i: nat, j: nat, P: U -> bool)
    requires i < |list|
    requires forall jj :: j <= jj < |list| && pair(list[i], list[jj]).Some? ==> P(pair(list[i], list[jj]).value)
    ensures PairScanFrom(pair, list, i, j).Some? ==> P(PairScanFrom(pair, list, i, j).value)
    decreases |list| - j
  {
    if j < |list| && pair(list[i], list[j]).None? {
      PairScanFromHolds(pair, list, i, j + 1, P);
    }
  }

  lemma {:induction false} PairScanRowsHolds<T, U>(pair: (T, T) -> Option<U>, list: seq<T>, i: nat, P: U -> bool)
    requires forall a, b :: i <= a < b < |list| && pair(list[a], list[b]).Some? ==> P(pair(list[a], list[b]).value)
    ensures PairScanRows(pair, list, i).Some? ==> P(PairScanRows(pair, list, i).value)
    decreases |list| - i
  {
    if i < |list| {
      PairScanFromHolds(pair, list, i, i + 1, P);
      if PairScanFrom(pair, list, i, i + 1).None? {
        PairScanRowsHolds(pair, list, i + 1, P);
      }
    }
  }

  /** Whatever holds of every pair's item holds of the scan's result. */
  lemma PairScanHolds<T, U>(pair: (T, T) -> Option<U>, list: seq<T>, P: U -> bool)
    requires forall a, b :: 0 <= a < b < |list| && pair(list[a], list[b]).Some? ==> P(pair(list[a], list[b]).value)
    ensures PairScan(pair, list).Some? ==> P(PairScan(pair, list).value)
  {
    PairScanRowsHolds(pair, list, 0, P);
  }

  lemma {:induction false} PairScanFromNone<T, U>(pair: (T, T) -> Option<U>, list: seq<T>, i: nat, j: nat)
    requires i < |list|
    ensures PairScanFrom(pair, list, i, j).None? <==>
      forall jj :: j <= jj < |list| ==> pair(list[i], list[jj]).None?
    decreases |list| - j
  {
    if j < |list| {
      PairScanFromNone(pair, list, i, j + 1);
    }
  }

  lemma {:induction false} PairScanRowsNone<T, U>(pair: (T, T) -> Option<U>, list: seq<T>, i: nat)
    ensures PairScanRows(pair, list, i).None? <==>
      forall a, b :: i <= a < b < |list| ==> pair(list[a], list[b]).None?
    decreases |list| - i
  {
    if i < |list| {
      PairScanFromNone(pair, list, i, i + 1);
      PairScanRowsNone(pair, list, i + 1);
      if PairScanRows(pair, list, i).None? {
        forall a, b | i <= a < b < |list|
          ensures pair(list[a], list[b]).None?
        {
          if a > i {
            assert i + 1 <= a;
          }
        }
      }
    }
  }

  /** The scan finds nothing exactly when no pair yields an item. */
  lemma PairScanNone<T, U>(pair: (T, T) -> Option<U>, list: seq<T>)
    ensures PairScan(pair, list).None? <==>
      forall a, b :: 0 <= a < b < |list| ==> pair(list[a], list[b]).None?
  {
    PairScanRowsNone(pair, list, 0);
  }
}

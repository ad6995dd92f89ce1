/** Array operations the controllers use: ECMAScript's stable `sort` with a numeric
    comparator, `slice(-n)`, `slice(0, n)` and `[...new Set(xs)]`. */
module Lists {

  /** `xs` is in ascending order of `key`. */
  ghost predicate SortedBy<T>(xs: seq<T>, key: T -> int) {
    forall i, j :: 0 <= i < j < |xs| ==> key(xs[i]) <= key(xs[j])
  }

  /** Inserts `x` before the first element of `ys` whose key is not smaller. */
  function Insert<T>(x: T, ys: seq<T>, key: T -> int): (r: seq<T>)
    ensures |r| == |ys| + 1
    ensures r[0] == x || (ys != [] && r[0] == ys[0])
  {
    if ys == [] || key(x) <= key(ys[0]) then [x] + ys
    else [ys[0]] + Insert(x, ys[1..], key)
  }

  /** Inserting adds `x` and loses nothing. */
  lemma {:induction false} InsertPermutes<T>(x: T, ys: seq<T>, key: T -> int)
    ensures multiset(Insert(x, ys, key)) == multiset(ys) + multiset{x}
  {
    if ys != [] && key(ys[0]) < key(x) {
      InsertPermutes(x, ys[1..], key);
      assert ys == [ys[0]] + ys[1..];
    }
  }

  /** Inserting into a sorted sequence keeps it sorted. */
  lemma {:induction false} InsertSorted<T>(x: T, ys: seq<T>, key: T -> int)
    requires SortedBy(ys, key)
    ensures SortedBy(Insert(x, ys, key), key)
  {
    if ys != [] && key(ys[0]) < key(x) {
      var rest := Insert(x, ys[1..], key);
      InsertSorted(x, ys[1..], key);
      var r := [ys[0]] + rest;
      assert key(ys[0]) <= key(rest[0]) by {
        if rest[0] != x {
          assert ys[1..][0] == ys[1];
        }
      }
      forall i, j | 0 <= i < j < |r| ensures key(r[i]) <= key(r[j]) {
        assert r[j] == rest[j - 1];
        if i > 0 {
          assert r[i] == rest[i - 1];
        }
      }
    }
  }

  /** `xs.sort((a, b) => key(a) - key(b))`: an insertion sort. Inserting each element
      in front of the equal keys that come after it keeps the sort stable, as the
      language requires since ECMAScript 2019. */
  function SortBy<T>(xs: seq<T>, key: T -> int): (r: seq<T>)
    ensures |r| == |xs|
    ensures SortedBy(r, key)
    ensures multiset(r) == multiset(xs)
  {
    if xs == [] then []
    else
      var sorted := SortBy(xs[1..], key);
      InsertPermutes(xs[0], sorted, key);
      InsertSorted(xs[0], sorted, key);
      assert xs == [xs[0]] + xs[1..];
      Insert(xs[0], sorted, key)
  }

  /** The first element of a non-empty sort has the least key of all. */
  lemma SortByFirstIsLeast<T>(xs: seq<T>, key: T -> int, y: T)
    requires y in xs
    ensures |SortBy(xs, key)| > 0
    ensures SortBy(xs, key)[0] in xs
    ensures key(SortBy(xs, key)[0]) <= key(y)
  {
    var r := SortBy(xs, key);
    assert y in multiset(r);
    var j :| 0 <= j < |r| && r[j] == y;
    assert r[0] in multiset(xs);
  }

  /** `xs.slice(-n)` for an integer `n`: for `n > 0` the last `n` items (or all),
      for `n == 0` all of them (`-0` is `0`), for `n < 0` all but the first `-n`. */
  function SliceFromEnd<T>(xs: seq<T>, n: int): (r: seq<T>)
    ensures n >= 0 ==> |r| == if n == 0 || n > |xs| then |xs| else n
    ensures n < 0 ==> |r| == if -n > |xs| then 0 else |xs| + n
    ensures r == xs[|xs| - |r|..]
  {
    if n > 0 then
      if n >= |xs| then xs else xs[|xs| - n..]
    else if -n >= |xs| then []
    else xs[-n..]
  }

  /** `xs.slice(0, n)` for `n >= 0`. */
  function Take<T>(xs: seq<T>, n: nat): (r: seq<T>)
    ensures |r| <= n && r <= xs
    ensures |xs| <= n ==> r == xs
  {
    if |xs| <= n then xs else xs[..n]
  }

  /** `[...new Set(xs)]`: each value once, in order of first occurrence. */
  function Dedup<T(==)>(xs: seq<T>): (r: seq<T>)
    ensures forall i :: 0 <= i < |r| ==> r[i] in xs
    ensures forall i :: 0 <= i < |xs| ==> xs[i] in r
    ensures forall i, j :: 0 <= i < j < |r| ==> r[i] != r[j]
  {
    if xs == [] then []
    else
      var d := Dedup(xs[..|xs| - 1]);
      assert xs == xs[..|xs| - 1] + [xs[|xs| - 1]];
      if xs[|xs| - 1] in d then d else d + [xs[|xs| - 1]]
  }

  /** `xs.filter(x => x !== v)`. */
  function Remove<T(==)>(xs: seq<T>, v: T): (r: seq<T>)
    ensures forall i :: 0 <= i < |r| ==> r[i] in xs && r[i] != v
    ensures forall i :: 0 <= i < |xs| && xs[i] != v ==> xs[i] in r
    ensures (forall i, j :: 0 <= i < j < |xs| ==> xs[i] != xs[j]) ==>
            (forall i, j :: 0 <= i < j < |r| ==> r[i] != r[j])
  {
    if xs == [] then []
    else
      var rest := Remove(xs[1..], v);
      assert xs == [xs[0]] + xs[1..];
      if xs[0] == v then rest else [xs[0]] + rest
  }

  /** The items of `xs` that satisfy `p`, in order: a query with `equalTo`, or
      `xs.filter(p)`. */
  function Filter<T(==)>(xs: seq<T>, p: T -> bool): (r: seq<T>)
    ensures |r| <= |xs|
    ensures forall i :: 0 <= i < |r| ==> p(r[i]) && r[i] in xs
    ensures forall i :: 0 <= i < |xs| && p(xs[i]) ==> xs[i] in r
  {
    if xs == [] then []
    else
      var r := Filter(xs[..|xs| - 1], p);
      var x := xs[|xs| - 1];
      assert forall i :: 0 <= i < |xs| - 1 ==> xs[i] == xs[..|xs| - 1][i];
      if p(x) then r + [x] else r
  }

  /** The number of items of `xs` that satisfy `p`. */
  function Count<T>(xs: seq<T>, p: T -> bool): nat {
    if xs == [] then 0
    else Count(xs[..|xs| - 1], p) + if p(xs[|xs| - 1]) then 1 else 0
  }

  /** Counting the items that satisfy `p` is measuring their filtered list. */
  lemma {:induction false} CountIsFilterLength<T>(xs: seq<T>, p: T -> bool)
    ensures Count(xs, p) == |Filter(xs, p)|
  {
    if xs != [] {
      CountIsFilterLength(xs[..|xs| - 1], p);
    }
  }

  /** Counting distributes over concatenation. */
  lemma {:induction false} CountAppend<T>(xs: seq<T>, ys: seq<T>, p: T -> bool)
    ensures Count(xs + ys, p) == Count(xs, p) + Count(ys, p)
    decreases |ys|
  {
    if ys != [] {
      var n := |ys| - 1;
      assert (xs + ys)[..|xs + ys| - 1] == xs + ys[..n];
      assert (xs + ys)[|xs + ys| - 1] == ys[n];
      CountAppend(xs, ys[..n], p);
    } else {
      assert xs + ys == xs;
    }
  }

  lemma {:induction false} CountInsert<T>(x: T, ys: seq<T>, key: T -> int, p: T -> bool)
    ensures Count(Insert(x, ys, key), p) == Count([x] + ys, p)
    decreases |ys|
  {
    if ys != [] && key(x) > key(ys[0]) {
      CountInsert(x, ys[1..], key, p);
      CountAppend([ys[0]], Insert(x, ys[1..], key), p);
      CountAppend([x], ys[1..], p);
      CountAppend([ys[0]], [x] + ys[1..], p);
      CountAppend([x], ys, p);
      assert ys == [ys[0]] + ys[1..];
      CountAppend([ys[0]], ys[1..], p);
    }
  }

  /** Sorting does not change how many items satisfy `p`. */
  lemma {:induction false} CountSortBy<T>(xs: seq<T>, key: T -> int, p: T -> bool)
    ensures Count(SortBy(xs, key), p) == Count(xs, p)
    decreases |xs|
  {
    if xs != [] {
      CountSortBy(xs[1..], key, p);
      CountInsert(xs[0], SortBy(xs[1..], key), key, p);
      CountAppend([xs[0]], SortBy(xs[1..], key), p);
      CountAppend([xs[0]], xs[1..], p);
      assert xs == [xs[0]] + xs[1..];
    }
  }

  /** The `limit` query parameter after `parseInt`: absent (then 50), a number, or NaN. */
  datatype Limit = Default | Parsed(n: int) | NotANumber

  /** How many of `total` items a page keeps for `limit`: at most 50 by default,
      at most `n` for a positive `n`, all but the first `-n` for a negative `n`,
      and all of them for `0` or NaN. */
  function PageSize(total: nat, limit: Limit): (n: nat)
    ensures n <= total
  {
    match limit
    case Default => if total < 50 then total else 50
    case Parsed(n) =>
      if n > 0 then (if total < n then total else n)
      else if -n > total then 0
      else total + n
    case NotANumber => total
  }

  /** `xs.slice(-parseInt(limit))`. `-NaN` is NaN, which `slice` reads as 0. */
  function LastN<T>(xs: seq<T>, limit: Limit): (r: seq<T>)
    ensures |r| <= |xs|
    ensures r == xs[|xs| - |r|..]
    ensures limit.Default? ==> |r| == if |xs| < 50 then |xs| else 50
    ensures limit.Parsed? && limit.n > 0 ==> |r| == if |xs| < limit.n then |xs| else limit.n
    ensures limit.Parsed? && limit.n < 0 ==> |r| == if -limit.n > |xs| then 0 else |xs| + limit.n
    ensures limit == Parsed(0) || limit.NotANumber? ==> r == xs
    ensures |r| == PageSize(|xs|, limit)
  {
    match limit
    case Default => SliceFromEnd(xs, 50)
    case Parsed(n) => SliceFromEnd(xs, n)
    case NotANumber => xs
  }

  /** The last items of a sort are items of the input, in ascending order of the key. */
  lemma LastOfSorted<T>(xs: seq<T>, key: T -> int, limit: Limit, r: seq<T>)
    requires r == LastN(SortBy(xs, key), limit)
    ensures forall i :: 0 <= i < |r| ==> r[i] in xs
    ensures forall i, j :: 0 <= i < j < |r| ==> key(r[i]) <= key(r[j])
    ensures multiset(r) <= multiset(xs)
  {
    var sorted := SortBy(xs, key);
    var off := |sorted| - |r|;
    forall i | 0 <= i < |r| ensures r[i] in xs {
      assert r[i] == sorted[off + i];
      assert sorted[off + i] in multiset(sorted);
    }
    SuffixSubMultiset(sorted, off);
  }

  /** A suffix holds no item more often than the whole sequence. */
  lemma SuffixSubMultiset<T>(s: seq<T>, k: nat)
    requires k <= |s|
    ensures multiset(s[k..]) <= multiset(s)
  {
    assert s == s[..k] + s[k..];
  }

  /** A page of filtered items: the last `limit` of them in ascending order of `key`,
      each item of `xs` satisfying `p`, and none repeated when `xs` repeats none. */
  lemma PageOfFiltered<T>(xs: seq<T>, p: T -> bool, key: T -> int, limit: Limit, r: seq<T>)
    requires r == LastN(SortBy(Filter(xs, p), key), limit)
    ensures forall i :: 0 <= i < |r| ==> r[i] in xs && p(r[i])
    ensures forall i, j :: 0 <= i < j < |r| ==> key(r[i]) <= key(r[j])
    ensures |r| == PageSize(|Filter(xs, p)|, limit)
    ensures r == SortBy(Filter(xs, p), key)[|Filter(xs, p)| - |r|..]
    ensures Distinct(xs) ==> Distinct(r)
  {
    var msgs := Filter(xs, p);
    FilterMembers(xs, p);
    LastOfSorted(msgs, key, limit, r);
    FilterSubMultiset(xs, p);
    if Distinct(xs) {
      DistinctSubMultiset(r, xs);
    }
  }

  /** Whatever the filter keeps satisfies the predicate and comes from the input. */
  lemma FilterMembers<T>(xs: seq<T>, p: T -> bool)
    ensures forall y :: y in Filter(xs, p) ==> p(y) && y in xs
  {
    var r := Filter(xs, p);
    forall y | y in r ensures p(y) && y in xs {
      var k :| 0 <= k < |r| && r[k] == y;
    }
  }

  /** No item occurs twice in `xs`. */
  predicate Distinct<T(==)>(xs: seq<T>) {
    forall i, j :: 0 <= i < j < |xs| ==> xs[i] != xs[j]
  }

  /** Filtering a concatenation filters each part: the kept items stay in input order. */
  lemma {:induction false} FilterAppend<T>(a: seq<T>, b: seq<T>, p: T -> bool)
    ensures Filter(a + b, p) == Filter(a, p) + Filter(b, p)
    decreases |b|
  {
    if b == [] {
      assert a + b == a;
    } else {
      var n := |b| - 1;
      assert (a + b)[..|a + b| - 1] == a + b[..n];
      assert (a + b)[|a + b| - 1] == b[n];
      FilterAppend(a, b[..n], p);
    }
  }

  /** A one-item list is kept exactly when its item satisfies `p`. */
  lemma FilterSingle<T>(x: T, p: T -> bool)
    ensures Filter([x], p) == if p(x) then [x] else []
  {
    assert [x][..0] == [];
  }

  /** The filter keeps each item at most as often as the input holds it. */
  lemma {:induction false} FilterSubMultiset<T>(xs: seq<T>, p: T -> bool)
    ensures multiset(Filter(xs, p)) <= multiset(xs)
  {
    if xs != [] {
      var n := |xs| - 1;
      FilterSubMultiset(xs[..n], p);
      assert xs == xs[..n] + [xs[n]];
    }
  }

  /** In a sequence without repeats every value occurs at most once. */
  lemma {:induction false} DistinctCountsAtMostOne<T>(xs: seq<T>, v: T)
    requires Distinct(xs)
    ensures multiset(xs)[v] <= 1
  {
    if xs != [] {
      var n := |xs| - 1;
      assert xs == xs[..n] + [xs[n]];
      assert Distinct(xs[..n]) by {
        forall i, j | 0 <= i < j < n ensures xs[..n][i] != xs[..n][j] {
          assert xs[..n][i] == xs[i] && xs[..n][j] == xs[j];
        }
      }
      DistinctCountsAtMostOne(xs[..n], v);
      if xs[n] == v {
        assert v !in xs[..n] by {
          forall i | 0 <= i < n ensures xs[..n][i] != v {
            assert xs[..n][i] == xs[i];
          }
        }
      }
    }
  }

  /** A value at two positions occurs at least twice. */
  lemma TwiceCounted<T>(r: seq<T>, i: nat, j: nat)
    requires i < j < |r|
    ensures r[i] == r[j] ==> multiset(r)[r[i]] >= 2
  {
    assert r == r[..i] + [r[i]] + r[i + 1..j] + [r[j]] + r[j + 1..];
  }

  /** Taking no item more often than a sequence without repeats holds it gives no repeats. */
  lemma DistinctSubMultiset<T>(r: seq<T>, xs: seq<T>)
    requires multiset(r) <= multiset(xs) && Distinct(xs)
    ensures Distinct(r)
  {
    forall i, j | 0 <= i < j < |r| ensures r[i] != r[j] {
      DistinctCountsAtMostOne(xs, r[i]);
      TwiceCounted(r, i, j);
    }
  }

  /** The items whose key is `k`. */
  function KeyIs<T>(key: T -> int, k: int): T -> bool {
    x => key(x) == k
  }

  /** Insertion puts `x` before every item of `ys` with an equal key. */
  lemma {:induction false} InsertStable<T>(x: T, ys: seq<T>, key: T -> int, k: int)
    requires SortedBy(ys, key)
    ensures Filter(Insert(x, ys, key), KeyIs(key, k)) == Filter([x], KeyIs(key, k)) + Filter(ys, KeyIs(key, k))
    decreases |ys|, 1
  {
    var p := KeyIs(key, k);
    if ys == [] || key(x) <= key(ys[0]) {
      FilterAppend([x], ys, p);
    } else {
      InsertPastHead(x, ys, key, k);
    }
  }

  /** The step of `InsertStable` where `x` goes past the head of `ys`. */
  lemma {:induction false} InsertPastHead<T>(x: T, ys: seq<T>, key: T -> int, k: int)
    requires SortedBy(ys, key) && ys != [] && key(ys[0]) < key(x)
    ensures Filter(Insert(x, ys, key), KeyIs(key, k)) == Filter([x], KeyIs(key, k)) + Filter(ys, KeyIs(key, k))
    decreases |ys|, 0
  {
    var p := KeyIs(key, k);
    var y, rest := ys[0], ys[1..];
    SortedTail(ys, key);
    InsertStable(x, rest, key, k);
    var ins := Insert(x, rest, key);
    assert Insert(x, ys, key) == [y] + ins;
    FilterSingle(x, p);
    FilterCons(y, ins, p);
    assert ys == [y] + rest;
    FilterCons(y, rest, p);
    var hx, hy, fr := Filter([x], p), (if p(y) then [y] else []), Filter(rest, p);
    assert Filter(ins, p) == hx + fr;
    assert Filter(Insert(x, ys, key), p) == hy + (hx + fr);
    assert Filter(ys, p) == hy + fr;
    assert p(x) == (key(x) == k) && p(y) == (key(y) == k);
    if hx == [] {
      assert hx + fr == fr && hx + (hy + fr) == hy + fr;
    } else {
      assert hy + (hx + fr) == hx + fr && hy + fr == fr;
    }
  }

  /** Filtering a list with a head filters the head, then the rest. */
  lemma FilterCons<T>(y: T, s: seq<T>, p: T -> bool)
    ensures Filter([y] + s, p) == (if p(y) then [y] else []) + Filter(s, p)
  {
    FilterAppend([y], s, p);
    FilterSingle(y, p);
  }

  lemma SortedTail<T>(ys: seq<T>, key: T -> int)
    requires SortedBy(ys, key) && ys != []
    ensures SortedBy(ys[1..], key)
  {
    var rest := ys[1..];
    forall i, j | 0 <= i < j < |rest| ensures key(rest[i]) <= key(rest[j]) {
      assert rest[i] == ys[i + 1] && rest[j] == ys[j + 1];
    }
  }

  /** `SortBy` is stable: the items that share a key keep their input order. */
  lemma {:induction false} SortByStable<T>(xs: seq<T>, key: T -> int, k: int)
    ensures Filter(SortBy(xs, key), KeyIs(key, k)) == Filter(xs, KeyIs(key, k))
    decreases |xs|
  {
    if xs != [] {
      var p := KeyIs(key, k);
      SortByStable(xs[1..], key, k);
      InsertStable(xs[0], SortBy(xs[1..], key), key, k);
      assert xs == [xs[0]] + xs[1..];
      FilterAppend([xs[0]], xs[1..], p);
    }
  }
}

/** Shared vocabulary: optional values, sums over sequences and the stable sort. */
module Collections {

  datatype Option<+T> = None | Some(value: T)

  function OrElse<T>(o: Option<T>, default: T): T {
    if o.Some? then o.value else default
  }

  function Max(a: int, b: int): int { if a >= b then a else b }

  function Min(a: int, b: int): int { if a <= b then a else b }

  // ---------------------------------------------------------------- sums

  function SumBy<T(!new)>(s: seq<T>, f: T -> int): int {
    if s == [] then 0 else f(s[0]) + SumBy(s[1..], f)
  }

  lemma {:induction false} SumAppend<T(!new)>(s: seq<T>, t: seq<T>, f: T -> int)
    ensures SumBy(s + t, f) == SumBy(s, f) + SumBy(t, f)
  {
    if s == [] {
      assert s + t == t;
    } else {
      assert (s + t)[1..] == s[1..] + t;
      SumAppend(s[1..], t, f);
    }
  }

  lemma SumSnoc<T(!new)>(s: seq<T>, x: T, f: T -> int)
    ensures SumBy(s + [x], f) == SumBy(s, f) + f(x)
  {
    SumAppend(s, [x], f);
    assert SumBy([x], f) == f(x) + SumBy([x][1..], f);
  }

  lemma SumPair<T(!new)>(x: T, y: T, f: T -> int)
    ensures SumBy([x, y], f) == f(x) + f(y)
  {
    assert [x] + [y] == [x, y];
    SumSnoc([x], y, f);
    SumSnoc([], x, f);
    assert [] + [x] == [x];
  }

  lemma SumSplit<T(!new)>(s: seq<T>, i: nat, f: T -> int)
    requires i < |s|
    ensures SumBy(s, f) == SumBy(s[..i], f) + f(s[i]) + SumBy(s[i + 1..], f)
  {
    assert s == s[..i] + ([s[i]] + s[i + 1..]);
    SumAppend(s[..i], [s[i]] + s[i + 1..], f);
    assert ([s[i]] + s[i + 1..])[1..] == s[i + 1..];
  }

  lemma {:induction false} SumNonNegative<T(!new)>(s: seq<T>, f: T -> int)
    requires forall x :: x in s ==> f(x) >= 0
    ensures SumBy(s, f) >= 0
  {
    if s != [] {
      SumNonNegative(s[1..], f);
    }
  }

  lemma {:induction false} SumMonotone<T(!new)>(s: seq<T>, f: T -> int, g: T -> int)
    requires forall x :: x in s ==> f(x) <= g(x)
    ensures SumBy(s, f) <= SumBy(s, g)
  {
    if s != [] {
      SumMonotone(s[1..], f, g);
    }
  }

  lemma {:induction false} SumSame<T(!new)>(s: seq<T>, f: T -> int, g: T -> int)
    requires forall x :: x in s ==> f(x) == g(x)
    ensures SumBy(s, f) == SumBy(s, g)
  {
    if s != [] {
      SumSame(s[1..], f, g);
    }
  }

  // -------------------------------------------------------------- filters

  function Filter<T(!new)>(s: seq<T>, p: T -> bool): (r: seq<T>)
    ensures forall x :: x in r <==> x in s && p(x)
    ensures |r| <= |s|
  {
    if s == [] then [] else (if p(s[0]) then [s[0]] else []) + Filter(s[1..], p)
  }

  lemma {:induction false} FilterAll<T(!new)>(s: seq<T>, p: T -> bool)
    requires forall x :: x in s ==> p(x)
    ensures Filter(s, p) == s
  {
    if s != [] {
      FilterAll(s[1..], p);
    }
  }

  lemma {:induction false} FilterSum<T(!new)>(s: seq<T>, p: T -> bool, f: T -> int)
    requires forall x :: x in s && !p(x) ==> f(x) >= 0
    ensures SumBy(Filter(s, p), f) <= SumBy(s, f)
  {
    if s != [] {
      FilterSum(s[1..], p, f);
      SumAppend(if p(s[0]) then [s[0]] else [], Filter(s[1..], p), f);
    }
  }

  lemma {:induction false} FilterAppend<T(!new)>(s: seq<T>, t: seq<T>, p: T -> bool)
    ensures Filter(s + t, p) == Filter(s, p) + Filter(t, p)
  {
    if s == [] {
      assert s + t == t;
    } else {
      assert (s + t)[1..] == s[1..] + t;
      FilterAppend(s[1..], t, p);
    }
  }

  lemma FilterSnoc<T(!new)>(s: seq<T>, x: T, p: T -> bool)
    ensures Filter(s + [x], p) == Filter(s, p) + if p(x) then [x] else []
  {
    FilterAppend(s, [x], p);
    assert [x][1..] == [];
  }

  lemma SumHead<T(!new)>(keep: bool, x: T, s: seq<T>, f: T -> int)
    ensures SumBy((if keep then [x] else []) + s, f) == (if keep then f(x) else 0) + SumBy(s, f)
  {
    assert ([x] + s)[1..] == s;
    assert [] + s == s;
  }

  /** A filter splits a sum in two. */
  lemma {:induction false} FilterSplit<T(!new)>(s: seq<T>, p: T -> bool, q: T -> bool, f: T -> int)
    requires forall x :: q(x) == !p(x)
    ensures SumBy(s, f) == SumBy(Filter(s, p), f) + SumBy(Filter(s, q), f)
  {
    if s != [] {
      FilterSplit(s[1..], p, q, f);
      SumHead(p(s[0]), s[0], Filter(s[1..], p), f);
      SumHead(q(s[0]), s[0], Filter(s[1..], q), f);
    }
  }

  // ---------------------------------------------- Python's sort(key = ...)

  /** The elements of `s` whose key is `k`, in their order in `s`. */
  function OfKey<T(!new)>(s: seq<T>, key: T -> int, k: int): (r: seq<T>)
    ensures forall x :: x in r <==> x in s && key(x) == k
  {
    if s == [] then [] else (if key(s[0]) == k then [s[0]] else []) + OfKey(s[1..], key, k)
  }

  lemma {:induction false} NoneOfKey<T(!new)>(s: seq<T>, key: T -> int, k: int)
    requires forall x :: x in s ==> key(x) != k
    ensures OfKey(s, key, k) == []
  {
    if s != [] {
      NoneOfKey(s[1..], key, k);
    }
  }

  ghost predicate Sorted<T(!new)>(s: seq<T>, key: T -> int) {
    forall i, j :: 0 <= i < j < |s| ==> key(s[i]) <= key(s[j])
  }

  function Insert<T(!new)>(x: T, s: seq<T>, key: T -> int): (r: seq<T>)
    ensures |r| == |s| + 1
    ensures forall y :: y in r <==> y == x || y in s
  {
    if s == [] || key(x) <= key(s[0]) then [x] + s
    else
      var r := [s[0]] + Insert(x, s[1..], key);
      assert s == [s[0]] + s[1..];
      r
  }

  /** The stable sort by an integer key: what `sorted` and `list.sort` promise. */
  function SortBy<T(!new)>(s: seq<T>, key: T -> int): (r: seq<T>)
    ensures |r| == |s|
    ensures forall x :: x in r <==> x in s
  {
    if s == [] then []
    else
      assert s == [s[0]] + s[1..];
      Insert(s[0], SortBy(s[1..], key), key)
  }

  lemma {:induction false} InsertSorted<T(!new)>(x: T, s: seq<T>, key: T -> int)
    requires Sorted(s, key)
    ensures Sorted(Insert(x, s, key), key)
  {
    if s != [] && key(x) > key(s[0]) {
      InsertSorted(x, s[1..], key);
      var tail := Insert(x, s[1..], key);
      forall y | y in tail ensures key(s[0]) <= key(y) {
        if y != x {
          var i :| 0 <= i < |s[1..]| && s[1..][i] == y;
          assert s[i + 1] == y;
        }
      }
    }
  }

  lemma {:induction false} SortSorted<T(!new)>(s: seq<T>, key: T -> int)
    ensures Sorted(SortBy(s, key), key)
  {
    if s != [] {
      SortSorted(s[1..], key);
      InsertSorted(s[0], SortBy(s[1..], key), key);
    }
  }

  lemma {:induction false} InsertSum<T(!new)>(x: T, s: seq<T>, key: T -> int, f: T -> int)
    ensures SumBy(Insert(x, s, key), f) == f(x) + SumBy(s, f)
  {
    if s == [] || key(x) <= key(s[0]) {
      assert ([x] + s)[1..] == s;
    } else {
      InsertSum(x, s[1..], key, f);
      assert ([s[0]] + Insert(x, s[1..], key))[1..] == Insert(x, s[1..], key);
    }
  }

  /** Sorting is a permutation, so it changes no sum over the elements. */
  lemma {:induction false} SortSum<T(!new)>(s: seq<T>, key: T -> int, f: T -> int)
    ensures SumBy(SortBy(s, key), f) == SumBy(s, f)
  {
    if s != [] {
      SortSum(s[1..], key, f);
      InsertSum(s[0], SortBy(s[1..], key), key, f);
    }
  }

  lemma OfKeyCons<T(!new)>(x: T, s: seq<T>, key: T -> int, k: int)
    ensures OfKey([x] + s, key, k) == (if key(x) == k then [x] else []) + OfKey(s, key, k)
  {
    assert ([x] + s)[1..] == s;
  }

  lemma InsertCons<T(!new)>(x: T, y: T, s: seq<T>, key: T -> int)
    ensures Insert(x, [y] + s, key) == if key(x) <= key(y) then [x] + ([y] + s) else [y] + Insert(x, s, key)
  {
    assert ([y] + s)[1..] == s;
  }

  lemma InsertFirst<T(!new)>(x: T, s: seq<T>, key: T -> int)
    requires forall y :: y in s ==> key(x) <= key(y)
    ensures Insert(x, s, key) == [x] + s
  {
    assert s != [] ==> s[0] in s;
  }

  lemma JoinPick<T>(keep: bool, x: T, s: seq<T>)
    ensures (if keep then [x] else []) + s == if keep then [x] + s else s
  {
  }

  lemma InsertHere<T(!new)>(x: T, s: seq<T>, key: T -> int)
    requires s == [] || key(x) <= key(s[0])
    ensures Insert(x, s, key) == [x] + s
  {
  }

  /** Among the elements of one key an inserted element of that key comes first. */
  lemma {:induction false} InsertOfKey<T(!new)>(x: T, s: seq<T>, key: T -> int, k: int)
    ensures OfKey(Insert(x, s, key), key, k) == (if key(x) == k then [x] else []) + OfKey(s, key, k)
  {
    hide Insert, OfKey;
    if s == [] || key(x) <= key(s[0]) {
      InsertHere(x, s, key);
      OfKeyCons(x, s, key, k);
    } else {
      var y, rest := s[0], s[1..];
      assert s == [y] + rest;
      InsertOfKey(x, rest, key, k);
      InsertCons(x, y, rest, key);
      OfKeyCons(y, rest, key, k);
      OfKeyCons(y, Insert(x, rest, key), key, k);
      JoinPick(key(y) == k, y, OfKey(rest, key, k));
      JoinPick(key(y) == k, y, OfKey(Insert(x, rest, key), key, k));
      JoinPick(key(x) == k, x, OfKey(rest, key, k));
      JoinPick(key(x) == k, x, OfKey(s, key, k));
    }
  }

  /** Stability: elements of equal key keep their order. */
  lemma {:induction false} SortStable<T(!new)>(s: seq<T>, key: T -> int, k: int)
    ensures OfKey(SortBy(s, key), key, k) == OfKey(s, key, k)
  {
    if s != [] {
      SortStable(s[1..], key, k);
      InsertOfKey(s[0], SortBy(s[1..], key), key, k);
    }
  }

  lemma FilterCons<T(!new)>(x: T, s: seq<T>, p: T -> bool)
    ensures Filter([x] + s, p) == (if p(x) then [x] else []) + Filter(s, p)
  {
    assert ([x] + s)[1..] == s;
  }

  lemma {:induction false} InsertFilter<T(!new)>(x: T, s: seq<T>, key: T -> int, p: T -> bool)
    requires p(x) ==> forall y :: p(y) ==> key(y) == key(x)
    ensures Filter(Insert(x, s, key), p) == (if p(x) then [x] else []) + Filter(s, p)
  {
    hide Insert, Filter;
    if s == [] {
      InsertFirst(x, s, key);
      FilterCons(x, s, p);
    } else {
      var y, rest := s[0], s[1..];
      assert s == [y] + rest;
      InsertCons(x, y, rest, key);
      if key(x) <= key(y) {
        FilterCons(x, s, p);
      } else {
        assert p(x) ==> !p(y);
        InsertFilter(x, rest, key, p);
        FilterCons(y, rest, p);
        FilterCons(y, Insert(x, rest, key), p);
        JoinPick(p(y), y, Filter(rest, p));
        JoinPick(p(y), y, Filter(Insert(x, rest, key), p));
        JoinPick(p(x), x, Filter(rest, p));
        JoinPick(p(x), x, Filter(s, p));
      }
    }
  }

  /** Elements that all have the same key keep their order. */
  lemma {:induction false} SortFilter<T(!new)>(s: seq<T>, key: T -> int, p: T -> bool)
    requires forall x, y :: p(x) && p(y) ==> key(x) == key(y)
    ensures Filter(SortBy(s, key), p) == Filter(s, p)
  {
    if s != [] {
      SortFilter(s[1..], key, p);
      InsertFilter(s[0], SortBy(s[1..], key), key, p);
    }
  }

  lemma {:induction false} InsertAmong<T(!new)>(x: T, s: seq<T>, key: T -> int, other: T -> int, v: int)
    requires Sorted(s, key)
    ensures OfKey(Insert(x, s, key), other, v)
         == if other(x) == v then Insert(x, OfKey(s, other, v), key) else OfKey(s, other, v)
  {
    hide Insert, OfKey;
    if s == [] || key(x) <= key(s[0]) {
      forall y | y in s ensures key(x) <= key(y) { }
      InsertFirst(x, s, key);
      InsertFirst(x, OfKey(s, other, v), key);
      OfKeyCons(x, s, other, v);
    } else {
      var y, rest := s[0], s[1..];
      InsertAmong(x, rest, key, other, v);
      assert s == [y] + rest;
      hide Sorted;
      InsertCons(x, y, rest, key);
      OfKeyCons(y, rest, other, v);
      OfKeyCons(y, Insert(x, rest, key), other, v);
      InsertCons(x, y, OfKey(rest, other, v), key);
      JoinPick(other(y) == v, y, OfKey(rest, other, v));
      JoinPick(other(y) == v, y, OfKey(Insert(x, rest, key), other, v));
    }
  }

  /** Sorting and picking out the elements of one value commute. */
  lemma {:induction false} SortAmong<T(!new)>(s: seq<T>, key: T -> int, other: T -> int, v: int)
    ensures OfKey(SortBy(s, key), other, v) == SortBy(OfKey(s, other, v), key)
  {
    hide Insert, OfKey, SortBy;
    if s == [] {
      NoneOfKey(s, other, v);
      NoneOfKey(SortBy(s, key), other, v);
    } else {
      var x, rest := s[0], s[1..];
      SortAmong(rest, key, other, v);
      assert s == [x] + rest;
      SortCons(x, rest, key);
      SortCons(x, OfKey(rest, other, v), key);
      SortSorted(rest, key);
      hide Sorted;
      InsertAmong(x, SortBy(rest, key), key, other, v);
      OfKeyCons(x, rest, other, v);
      JoinPick(other(x) == v, x, OfKey(rest, other, v));
    }
  }

  lemma SortCons<T(!new)>(x: T, s: seq<T>, key: T -> int)
    ensures SortBy([x] + s, key) == Insert(x, SortBy(s, key), key)
  {
    assert ([x] + s)[1..] == s;
  }

  lemma OwnKey<T(!new)>(s: seq<T>, key: T -> int)
    ensures s != [] ==> s[0] in OfKey(s, key, key(s[0]))
  {
  }

  /** A sorted arrangement that keeps the order inside every key is THE stable sort. */
  lemma {:induction false} StableSortUnique<T(!new)>(s: seq<T>, t: seq<T>, key: T -> int)
    requires Sorted(s, key) && Sorted(t, key)
    requires forall k :: OfKey(s, key, k) == OfKey(t, key, k)
    ensures s == t
  {
    if s == [] || t == [] {
      if s != t {
        assert false by { OwnKey(s, key); OwnKey(t, key); }
      }
    } else {
      var k := key(s[0]);
      assert s[0] in OfKey(t, key, k);
      assert t[0] in OfKey(s, key, key(t[0]));
      assert key(t[0]) == k;
      assert s[0] == OfKey(s, key, k)[0] == OfKey(t, key, k)[0] == t[0];
      forall j ensures OfKey(s[1..], key, j) == OfKey(t[1..], key, j) {
        var h := if key(s[0]) == j then 1 else 0;
        assert OfKey(s[1..], key, j) == OfKey(s, key, j)[h..];
        assert OfKey(t[1..], key, j) == OfKey(t, key, j)[h..];
      }
      StableSortUnique(s[1..], t[1..], key);
    }
  }

  ghost predicate Apart<T(!new)>(s: seq<T>, name: T -> string) {
    forall i, j :: 0 <= i < j < |s| ==> name(s[i]) != name(s[j])
  }

  lemma {:induction false} InsertApart<T(!new)>(x: T, s: seq<T>, key: T -> int, name: T -> string)
    requires Apart(s, name) && forall y :: y in s ==> name(y) != name(x)
    ensures Apart(Insert(x, s, key), name)
  {
    if s != [] && key(x) > key(s[0]) {
      InsertApart(x, s[1..], key, name);
      var tail := Insert(x, s[1..], key);
      forall y | y in tail ensures name(y) != name(s[0]) {
        if y != x {
          var i :| 0 <= i < |s[1..]| && s[1..][i] == y;
          assert s[i + 1] == y;
        }
      }
    }
  }

  /** Sorting keeps pairwise distinct names distinct. */
  lemma {:induction false} SortApart<T(!new)>(s: seq<T>, key: T -> int, name: T -> string)
    requires Apart(s, name)
    ensures Apart(SortBy(s, key), name)
  {
    if s != [] {
      SortApart(s[1..], key, name);
      forall y | y in SortBy(s[1..], key) ensures name(y) != name(s[0]) {
        var i :| 0 <= i < |s[1..]| && s[1..][i] == y;
        assert s[i + 1] == y;
      }
      InsertApart(s[0], SortBy(s[1..], key), key, name);
    }
  }
}

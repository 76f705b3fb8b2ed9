/**
 * shared/yeoman_a2a_client.py: the bounded result cache, an OrderedDict whose end is the most recently
 * touched entry. Its contents are a function of the touches since the last clear.
 */
module ResultCache {
  import opened Collections
  import opened OrderedDicts

  // ------------------------------------------------------- recency of a log

  function Without(s: seq<string>, k: string): (r: seq<string>)
    ensures forall x :: x in r <==> x in s && x != k
  {
    if s == [] then [] else (if s[0] == k then [] else [s[0]]) + Without(s[1..], k)
  }

  function LastN<T>(s: seq<T>, n: nat): seq<T> { if |s| <= n then s else s[|s| - n..] }

  /** The distinct keys of a log of touches, the most recently touched last. */
  function ByRecency(log: seq<string>): seq<string> {
    if log == [] then []
    else Without(ByRecency(log[..|log| - 1]), log[|log| - 1]) + [log[|log| - 1]]
  }

  ghost predicate Distinct(s: seq<string>) { forall i, j :: 0 <= i < j < |s| ==> s[i] != s[j] }

  lemma {:induction false} WithoutNone(s: seq<string>, k: string)
    requires k !in s
    ensures Without(s, k) == s
  {
    if s != [] { WithoutNone(s[1..], k); }
  }

  lemma {:induction false} WithoutAppend(s: seq<string>, t: seq<string>, k: string)
    ensures Without(s + t, k) == Without(s, k) + Without(t, k)
  {
    if s == [] {
      assert s + t == t;
    } else {
      assert (s + t)[1..] == s[1..] + t;
      WithoutAppend(s[1..], t, k);
    }
  }

  /** Removing a key from distinct keys takes out its one position. */
  lemma WithoutAt(s: seq<string>, i: nat)
    requires Distinct(s) && i < |s|
    ensures Without(s, s[i]) == s[..i] + s[i + 1..]
  {
    var k := s[i];
    assert k !in s[..i] && k !in s[i + 1..];
    hide Distinct;
    assert s == s[..i] + s[i..] && s[i..][1..] == s[i + 1..];
    WithoutAppend(s[..i], s[i..], k);
    WithoutNone(s[..i], k);
    WithoutNone(s[i + 1..], k);
    assert Without(s[i..], k) == [] + Without(s[i..][1..], k);
  }

  lemma WithoutDistinct(s: seq<string>, k: string)
    requires Distinct(s)
    ensures Distinct(Without(s, k)) && |Without(s, k)| == |s| - if k in s then 1 else 0
  {
    if k in s {
      var i :| 0 <= i < |s| && s[i] == k;
      WithoutAt(s, i);
    } else {
      WithoutNone(s, k);
    }
  }

  /** Position of the last touch of a key. */
  function LastTouch(log: seq<string>, k: string): int {
    if log == [] then -1 else if log[|log| - 1] == k then |log| - 1 else LastTouch(log[..|log| - 1], k)
  }

  lemma {:induction false} LastTouchMeans(log: seq<string>, k: string)
    ensures -1 <= LastTouch(log, k) < |log|
    ensures LastTouch(log, k) >= 0 <==> k in log
    ensures LastTouch(log, k) >= 0 ==> log[LastTouch(log, k)] == k
    ensures forall i :: LastTouch(log, k) < i < |log| ==> log[i] != k
  {
    if log != [] && log[|log| - 1] != k {
      LastTouchMeans(log[..|log| - 1], k);
    }
  }

  function LastTouches(log: seq<string>): string -> int { k => LastTouch(log, k) }

  /** Recency order is what it says: every key once, ordered by the position of its last touch. */
  lemma {:induction false} RecencyMeans(log: seq<string>)
    ensures Distinct(ByRecency(log)) && forall k :: k in ByRecency(log) <==> k in log
    ensures Ascending(ByRecency(log), LastTouches(log))
  {
    if log != [] {
      var n := |log| - 1;
      var shorter, k := log[..n], log[n];
      var r := ByRecency(shorter);
      RecencyMeans(shorter);
      WithoutDistinct(r, k);
      WithoutKeepsOrder(r, k, LastTouches(shorter));
      assert ByRecency(log) == Without(r, k) + [k];
      assert log == shorter + [k];
      hide Without, ByRecency, LastTouch;
      forall x | x in Without(r, k) ensures LastTouches(log)(x) == LastTouches(shorter)(x) < n {
        LastTouchMeans(shorter, x);
        LastTouchBefore(log, x);
      }
      LastTouchMeans(log, k);
      AscendingSnoc(Without(r, k), k, LastTouches(shorter), LastTouches(log));
    }
  }

  lemma LastTouchBefore(log: seq<string>, x: string)
    requires log != [] && log[|log| - 1] != x
    ensures LastTouch(log, x) == LastTouch(log[..|log| - 1], x)
  {
  }

  lemma AscendingSnoc(s: seq<string>, k: string, f: string -> int, g: string -> int)
    requires Ascending(s, f) && forall x :: x in s ==> g(x) == f(x) < g(k)
    ensures Ascending(s + [k], g)
  {
    assert forall i :: 0 <= i < |s| ==> s[i] in s;
  }

  ghost predicate Ascending(s: seq<string>, f: string -> int) {
    forall i, j :: 0 <= i < j < |s| ==> f(s[i]) < f(s[j])
  }

  lemma {:induction false} WithoutKeepsOrder(s: seq<string>, k: string, f: string -> int)
    requires Ascending(s, f)
    ensures Ascending(Without(s, k), f)
  {
    if s != [] {
      WithoutKeepsOrder(s[1..], k, f);
      var tail := Without(s[1..], k);
      forall x | x in tail ensures f(s[0]) < f(x) {
        var h :| 0 <= h < |s[1..]| && s[1..][h] == x;
        assert s[h + 1] == x;
      }
      assert Without(s, k) == if s[0] == k then tail else [s[0]] + tail;
    }
  }

  /** Truncating before or after a touch gives the same: what was dropped never matters again. */
  lemma TouchTruncated(s: seq<string>, k: string, n: nat)
    requires Distinct(s)
    ensures LastN(Without(LastN(s, n), k) + [k], n) == LastN(Without(s, k) + [k], n)
  {
    if |s| > n {
      var dropped, kept := s[..|s| - n], s[|s| - n..];
      assert s == dropped + kept;
      WithoutAppend(dropped, kept, k);
      WithoutDistinct(kept, k);
      if k in kept {
        WithoutNone(dropped, k);
      }
      LastOfJoined(Without(dropped, k), Without(kept, k) + [k], n);
      assert Without(s, k) + [k] == Without(dropped, k) + (Without(kept, k) + [k]);
    }
  }

  lemma LastOfJoined(a: seq<string>, b: seq<string>, n: nat)
    requires |b| >= n
    ensures LastN(a + b, n) == LastN(b, n)
  {
  }

  /** The keys a cache of size n should hold after a log of touches. */
  function Recent(log: seq<string>, n: nat): seq<string> { LastN(ByRecency(log), n) }

  lemma RecentTouch(log: seq<string>, k: string, n: nat)
    ensures Recent(log + [k], n) == LastN(Without(Recent(log, n), k) + [k], n)
  {
    RecencyMeans(log);
    assert (log + [k])[..|log|] == log;
    TouchTruncated(ByRecency(log), k, n);
  }

  /** The keys touched after the last touch of k. */
  function Newer(log: seq<string>, k: string): set<string> {
    set x | x in log && LastTouch(log, x) > LastTouch(log, k)
  }

  lemma {:induction false} DistinctCount(s: seq<string>)
    requires Distinct(s)
    ensures |set x | x in s| == |s|
  {
    if s != [] {
      var rest := s[..|s| - 1];
      DistinctCount(rest);
      assert (set x | x in s) == (set x | x in rest) + {s[|s| - 1]};
    }
  }

  /** In recency order the keys behind position i are those touched after it. */
  lemma NewerAt(log: seq<string>, i: nat)
    requires i < |ByRecency(log)|
    ensures |Newer(log, ByRecency(log)[i])| == |ByRecency(log)| - 1 - i
  {
    RecencyMeans(log);
    var s, f := ByRecency(log), LastTouches(log);
    hide ByRecency, LastTouch;
    forall x ensures x in Newer(log, s[i]) <==> x in s[i + 1..] {
      if x in log {
        assert x in s;
        var j :| 0 <= j < |s| && s[j] == x;
        if j > i { assert f(s[i]) < f(s[j]) && s[i + 1..][j - i - 1] == x; }
        if j < i { assert f(s[j]) < f(s[i]); }
      }
      if x in s[i + 1..] {
        var h :| 0 <= h < |s[i + 1..]| && s[i + 1..][h] == x;
        assert x == s[h + i + 1] && f(s[i]) < f(x);
      }
    }
    var behind := s[i + 1..];
    assert Newer(log, s[i]) == set x | x in behind;
    DistinctCount(behind);
  }

  /** A cache of n holds a key exactly when it was touched and fewer than n others were touched after it, in touch order. */
  lemma RecentMeans(log: seq<string>, n: nat, k: string)
    ensures k in Recent(log, n) <==> k in log && |Newer(log, k)| < n
    ensures Distinct(Recent(log, n)) && Ascending(Recent(log, n), LastTouches(log))
  {
    RecencyMeans(log);
    var s, r := ByRecency(log), Recent(log, n);
    hide ByRecency, LastTouch, Newer;
    var cut := |s| - |r|;
    assert r == s[cut..] && (|r| == n || cut == 0) && |r| <= n;
    if k in log {
      assert k in s;
      var i :| 0 <= i < |s| && s[i] == k;
      NewerAt(log, i);
      if i >= cut { assert r[i - cut] == k; }
      if k in r {
        var h :| 0 <= h < |r| && r[h] == k;
        assert s[h + cut] == k;
      }
    } else {
      assert k !in s;
    }
  }

  // ------------------------------------------------------------- the cache

  /** `move_to_end`. */
  function MoveToEnd<V>(d: Dict<string, V>, k: string): Dict<string, V>
    requires Has(d, k)
  {
    Remove(d, k) + [Entry(k, d[IndexOf(d, k)].value)]
  }

  lemma KeysDistinct<V(!new)>(d: Dict<string, V>)
    requires Valid(d)
    ensures Distinct(KeysOf(d))
  {
  }

  lemma KeysWithout<V(!new)>(d: Dict<string, V>, k: string)
    requires Valid(d)
    ensures KeysOf(Remove(d, k)) == Without(KeysOf(d), k)
  {
    hide IndexOf, Without;
    var i := IndexOf(d, k);
    KeysDistinct(d);
    InKeys(d, k);
    if i < |d| {
      WithoutAt(KeysOf(d), i);
      assert KeysOf(d[..i] + d[i + 1..]) == KeysOf(d)[..i] + KeysOf(d)[i + 1..];
    } else {
      WithoutNone(KeysOf(d), k);
    }
  }

  lemma MoveEffect<V(!new)>(d: Dict<string, V>, k: string, v: V)
    requires Valid(d)
    ensures var m := Remove(d, k) + [Entry(k, v)];
            && Valid(m) && KeysOf(m) == Without(KeysOf(d), k) + [k]
            && forall x :: Get(m, x) == if x == k then Some(v) else Get(d, x)
  {
    hide IndexOf;
    var r := Remove(d, k);
    KeysWithout(d, k);
    RemoveGet(d, k, k);
    forall x ensures Get(r + [Entry(k, v)], x) == if x == k then Some(v) else Get(d, x) {
      RemoveGet(d, k, x);
      SetGet(r, k, v, x);
      assert Set(r, k, v) == r + [Entry(k, v)];
    }
    SetGet(r, k, v, k);
  }

  /** The newest n entries of a dict: fewer keys, the same values. */
  lemma LastEntries<V(!new)>(d: Dict<string, V>, n: nat)
    requires Valid(d)
    ensures Valid(LastN(d, n)) && KeysOf(LastN(d, n)) == LastN(KeysOf(d), n)
    ensures forall k :: Get(LastN(d, n), k).Some? ==> Get(LastN(d, n), k) == Get(d, k)
  {
    hide IndexOf;
    if |d| > n {
      var cut := |d| - n;
      forall k | Get(LastN(d, n), k).Some? ensures Get(LastN(d, n), k) == Get(d, k) {
        IndexIs(d, k, cut + IndexOf(d[cut..], k));
      }
    }
  }

  /** Storing under k: the keys are the most recent ones again, and only k's value is new. */
  lemma StoreEffect<V(!new)>(was: Dict<string, V>, log: seq<string>, k: string, v: V, n: nat)
    requires Valid(was) && KeysOf(was) == Recent(log, n)
    ensures var after := LastN(Remove(was, k) + [Entry(k, v)], n);
            && Valid(after) && KeysOf(after) == Recent(log + [k], n)
            && forall x :: Get(after, x).Some? ==> Get(after, x) == if x == k then Some(v) else Get(was, x)
  {
    hide IndexOf, Recent, LastN;
    MoveEffect(was, k, v);
    LastEntries(Remove(was, k) + [Entry(k, v)], n);
    RecentTouch(log, k, n);
  }

  class YeomanCache<V(!new)> {
    const cacheMaxSize: nat
    var resultsCache: Dict<string, V>
    /** Keys touched since the last clear: every store, and every lookup that found its key. */
    ghost var log: seq<string>
    /** The value last stored under every key since the last clear. */
    ghost var stored: map<string, V>

    ghost predicate Valid()
      reads this
    {
      && OrderedDicts.Valid(resultsCache)
      && KeysOf(resultsCache) == Recent(log, cacheMaxSize)
      && forall k :: Get(resultsCache, k).Some? ==> k in stored && Get(resultsCache, k).value == stored[k]
    }

    constructor (size: nat)
      ensures Valid() && log == [] && stored == map[] && cacheMaxSize == size
    {
      cacheMaxSize, resultsCache := size, [];
      log, stored := [], map[];
    }

    /** The eviction loop: the oldest entries go until the size fits. */
    method EvictOverflow()
      modifies this`resultsCache
      ensures resultsCache == LastN(old(resultsCache), cacheMaxSize)
    {
      ghost var full := resultsCache;
      while |resultsCache| > cacheMaxSize
        invariant |resultsCache| <= |full| && resultsCache == full[|full| - |resultsCache|..]
        invariant |resultsCache| == |full| || |resultsCache| >= cacheMaxSize
      {
        resultsCache := resultsCache[1..];
      }
    }

    /** Stores a result: the key becomes the most recent, and the oldest keys beyond the size go. */
    method CacheResult(taskId: string, result: V)
      requires Valid()
      modifies this
      ensures Valid() && log == old(log) + [taskId] && stored == old(stored)[taskId := result]
    {
      hide IndexOf, Recent, LastN;
      ghost var was := resultsCache;
      if Has(resultsCache, taskId) {
        resultsCache := MoveToEnd(resultsCache, taskId);
        MovedLast(was, taskId, result);
      } else {
        NotThere(was, taskId);
      }
      resultsCache := Set(resultsCache, taskId, result);
      assert resultsCache == Remove(was, taskId) + [Entry(taskId, result)];
      EvictOverflow();
      StoreEffect(was, log, taskId, result, cacheMaxSize);
      log := log + [taskId];
      stored := stored[taskId := result];
    }

    /** A hit returns the value last stored and makes the key the most recent; a miss touches nothing. */
    method GetCachedResult(taskId: string) returns (result: Option<V>)
      requires Valid()
      modifies this
      ensures Valid() && stored == old(stored)
      ensures result.Some? ==> taskId in stored && result.value == stored[taskId]
      ensures result.Some? <==> taskId in Recent(old(log), cacheMaxSize)
      ensures log == old(log) + if result.Some? then [taskId] else []
    {
      hide IndexOf, Recent, Without;
      result := Get(resultsCache, taskId);
      InKeys(resultsCache, taskId);
      if result != None {
        MoveEffect(resultsCache, taskId, result.value);
        RecentTouch(log, taskId, cacheMaxSize);
        HitFits(KeysOf(resultsCache), log, taskId, cacheMaxSize);
        resultsCache := MoveToEnd(resultsCache, taskId);
        log := log + [taskId];
      }
    }

    method ClearCache()
      requires Valid()
      modifies this
      ensures Valid() && log == [] && stored == map[]
    {
      resultsCache := [];
      log, stored := [], map[];
    }
  }

  /** Touching a key that is present does not overflow the cache. */
  lemma HitFits(keys: seq<string>, log: seq<string>, k: string, n: nat)
    requires keys == Recent(log, n) && k in keys
    ensures LastN(Without(keys, k) + [k], n) == Without(keys, k) + [k]
  {
    RecencyMeans(log);
    WithoutDistinct(keys, k);
  }

  lemma InKeys<V(!new)>(d: Dict<string, V>, k: string)
    ensures Has(d, k) <==> k in KeysOf(d)
  {
    if Has(d, k) {
      assert KeysOf(d)[IndexOf(d, k)] == k;
    }
  }

  lemma NotThere<V(!new)>(d: Dict<string, V>, k: string)
    requires !Has(d, k)
    ensures Remove(d, k) == d
  {
  }

  /** Assigning to a key just moved to the end rewrites the last entry. */
  lemma MovedLast<V(!new)>(d: Dict<string, V>, k: string, v: V)
    requires Valid(d) && Has(d, k)
    ensures Set(MoveToEnd(d, k), k, v) == Remove(d, k) + [Entry(k, v)]
  {
    hide IndexOf;
    RemoveGet(d, k, k);
    IndexIs(MoveToEnd(d, k), k, |Remove(d, k)|);
  }
}

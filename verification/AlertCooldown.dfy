/**
 * shared/alerts.py: the cooldown map of `AlertManager.fire`, with its eviction of stale entries and its hard
 * cap. Clock readings are integers; `now` is read when the alert is decided, `later` when stale entries are evicted.
 */
module AlertCooldown {
  import opened Collections
  import opened OrderedDicts

  const MAX_ENTRIES := 5000
  const EVICT_AGE := 7200

  type Fired = Dict<string, int>

  datatype Attempt = Attempt(key: string, now: int, later: int)

  // --------------------------------------------------------- specification

  predicate Suppressed(last: Option<int>, now: int, cooldown: int) {
    last.Some? && now - last.value < cooldown
  }

  function RemoveAll(d: Fired, ks: seq<string>): Fired {
    if ks == [] then d else Remove(RemoveAll(d, ks[..|ks| - 1]), ks[|ks| - 1])
  }

  function Evict(d: Fired, later: int): Fired {
    RemoveAll(d, KeysOf(Filter(d, (e: Entry<string, int>) => e.value < later - EVICT_AGE)))
  }

  /** The entries from the oldest to the newest; ties stay in dict order. */
  function ByAge(d: Fired): Fired {
    SortBy(d, (e: Entry<string, int>) => e.value)
  }

  function Oldest(d: Fired): seq<string> {
    if |d| > MAX_ENTRIES then KeysOf(ByAge(d)[..|d| - MAX_ENTRIES]) else []
  }

  predicate EvictsAt(size: nat) { size % 100 == 0 || size > MAX_ENTRIES }

  /** The map just before the hard cap applies. */
  function Recorded(d: Fired, a: Attempt): Fired {
    var m := Set(d, a.key, a.now);
    if EvictsAt(|m|) then Evict(m, a.later) else m
  }

  /** The map after a delivered alert. */
  function Record(d: Fired, a: Attempt): Fired {
    RemoveAll(Recorded(d, a), Oldest(Recorded(d, a)))
  }

  function Next(d: Fired, a: Attempt, cooldown: int): Fired {
    if Suppressed(Get(d, a.key), a.now, cooldown) then d else Record(d, a)
  }

  // ------------------------------------------------------------ the program

  class AlertManager {
    const cooldownSeconds: int
    const enabled: bool
    var lastFired: Fired

    constructor (enabled: bool, cooldownSeconds: int)
      ensures lastFired == [] && this.cooldownSeconds == cooldownSeconds && this.enabled == enabled
    {
      this.enabled, this.cooldownSeconds, this.lastFired := enabled, cooldownSeconds, [];
    }

    method DeleteAll(ks: seq<string>)
      modifies this
      ensures lastFired == RemoveAll(old(lastFired), ks)
    {
      for i := 0 to |ks|
        invariant lastFired == RemoveAll(old(lastFired), ks[..i])
      {
        assert ks[..i + 1][..i] == ks[..i];
        lastFired := Remove(lastFired, ks[i]);
      }
      assert ks[..|ks|] == ks;
    }

    method EvictStaleCooldowns(later: int)
      modifies this
      ensures lastFired == Evict(old(lastFired), later)
    {
      var cutoff := later - EVICT_AGE;
      var stale := KeysOf(Filter(lastFired, (e: Entry<string, int>) => e.value < cutoff));
      assert Evict(lastFired, later) == RemoveAll(lastFired, stale);
      DeleteAll(stale);
    }

    /** Whether the alert is sent on to its channels. */
    method Fire(a: Attempt) returns (delivered: bool)
      modifies this
      ensures delivered == (enabled && !Suppressed(old(Get(lastFired, a.key)), a.now, cooldownSeconds))
      ensures lastFired == if enabled then Next(old(lastFired), a, cooldownSeconds) else old(lastFired)
    {
      if !enabled { return false; }
      var last := Get(lastFired, a.key);
      if last.Some? && a.now - last.value < cooldownSeconds { return false; }
      lastFired := Set(lastFired, a.key, a.now);
      if |lastFired| % 100 == 0 || |lastFired| > MAX_ENTRIES {
        EvictStaleCooldowns(a.later);
        if |lastFired| > MAX_ENTRIES {
          var sortedKeys := KeysOf(ByAge(lastFired));
          assert sortedKeys[..|lastFired| - MAX_ENTRIES] == Oldest(lastFired);
          DeleteAll(sortedKeys[..|lastFired| - MAX_ENTRIES]);
        }
      }
      return true;
    }
  }

  // --------------------------------------------------------- deleting entries

  lemma {:induction false} RemoveAllGet(d: Fired, ks: seq<string>, k: string)
    requires Valid(d)
    ensures Valid(RemoveAll(d, ks))
    ensures Get(RemoveAll(d, ks), k) == if k in ks then None else Get(d, k)
  {
    if ks != [] {
      hide IndexOf;
      var n := |ks| - 1;
      RemoveAllGet(d, ks[..n], k);
      RemoveGet(RemoveAll(d, ks[..n]), ks[n], k);
      assert ks == ks[..n] + [ks[n]];
    }
  }

  lemma {:induction false} RemoveAllSize(d: Fired, ks: seq<string>)
    requires Valid(d)
    ensures |RemoveAll(d, ks)| <= |d|
    ensures (forall i, j :: 0 <= i < j < |ks| ==> ks[i] != ks[j]) && (forall k :: k in ks ==> Has(d, k))
            ==> |RemoveAll(d, ks)| == |d| - |ks|
  {
    if ks != [] {
      hide IndexOf, Valid;
      var n := |ks| - 1;
      RemoveAllSize(d, ks[..n]);
      RemoveAllGet(d, ks[..n], ks[n]);
    }
  }

  lemma KeyOf(d: Fired, i: nat)
    requires Valid(d) && i < |d|
    ensures Get(d, d[i].key) == Some(d[i].value)
  {
    IndexIs(d, d[i].key, i);
  }

  lemma GetEntry(d: Fired, k: string)
    ensures Get(d, k).Some? ==> Entry(k, Get(d, k).value) in d
  {
  }

  /** Eviction removes exactly the entries older than the eviction age. */
  lemma EvictGet(d: Fired, later: int, k: string)
    requires Valid(d)
    ensures Valid(Evict(d, later)) && |Evict(d, later)| <= |d|
    ensures Get(Evict(d, later), k)
         == if Get(d, k).Some? && Get(d, k).value < later - 7200 then None else Get(d, k)
  {
    hide IndexOf, RemoveAll;
    var stale := Filter(d, (e: Entry<string, int>) => e.value < later - EVICT_AGE);
    RemoveAllGet(d, KeysOf(stale), k);
    RemoveAllSize(d, KeysOf(stale));
    GetEntry(d, k);
    if Get(d, k).Some? && Get(d, k).value < later - EVICT_AGE {
      KeysHas(stale, Entry(k, Get(d, k).value));
    }
    if k in KeysOf(stale) {
      var i :| 0 <= i < |stale| && KeysOf(stale)[i] == k;
      assert stale[i] in d;
      var j :| 0 <= j < |d| && d[j] == stale[i];
      KeyOf(d, j);
    }
  }

  lemma KeysHas(d: Fired, e: Entry<string, int>)
    requires e in d
    ensures e.key in KeysOf(d)
  {
    var i :| 0 <= i < |d| && d[i] == e;
    assert KeysOf(d)[i] == e.key;
  }

  // ---------------------------------------------------------- the hard cap

  function Live(d: Fired, later: int, cooldown: int): int {
    SumBy(d, (e: Entry<string, int>) => if later - e.value < cooldown then 1 else 0)
  }

  /** In age order the live entries are a suffix. */
  lemma {:induction false} LiveSuffix(s: Fired, later: int, cooldown: int)
    requires Sorted(s, (e: Entry<string, int>) => e.value)
    ensures 0 <= Live(s, later, cooldown) <= |s|
    ensures forall i :: 0 <= i < |s| ==> (later - s[i].value < cooldown <==> i >= |s| - Live(s, later, cooldown))
  {
    if s != [] {
      var key := (e: Entry<string, int>) => e.value;
      assert forall i :: 0 <= i < |s| ==> key(s[0]) <= key(s[i]);
      LiveSuffix(s[1..], later, cooldown);
      assert Live(s, later, cooldown)
          == Live(s[1..], later, cooldown) + if later - s[0].value < cooldown then 1 else 0;
      if later - s[0].value < cooldown {
        assert forall i :: 0 <= i < |s| ==> later - s[i].value < cooldown;
        if |s| > 1 { assert s[1..][0] == s[1]; }
      }
    }
  }

  /** The entries the cap drops are the oldest ones, each of them an entry of the dict. */
  lemma DroppedAt(d: Fired, j: nat)
    requires Valid(d) && |d| > MAX_ENTRIES && j < |d| - MAX_ENTRIES
    ensures Oldest(d)[j] == ByAge(d)[j].key
    ensures Get(d, Oldest(d)[j]) == Some(ByAge(d)[j].value)
  {
    hide SortBy;
    assert ByAge(d)[j] in d;
    var i :| 0 <= i < |d| && d[i] == ByAge(d)[j];
    KeyOf(d, i);
  }

  /** In age order the live entries are the last ones. */
  lemma LiveByAge(d: Fired, later: int, cooldown: int)
    ensures 0 <= Live(d, later, cooldown) <= |d|
    ensures forall j :: 0 <= j < |d| ==> (later - ByAge(d)[j].value < cooldown <==> j >= |d| - Live(d, later, cooldown))
  {
    hide SortBy, Live;
    var key := (e: Entry<string, int>) => e.value;
    SortSorted(d, key);
    SortSum(d, key, (e: Entry<string, int>) => if later - e.value < cooldown then 1 else 0);
    assert Live(ByAge(d), later, cooldown) == Live(d, later, cooldown) by {
      LiveIsSum(d, later, cooldown);
      LiveIsSum(ByAge(d), later, cooldown);
    }
    LiveSuffix(ByAge(d), later, cooldown);
  }

  lemma LiveIsSum(d: Fired, later: int, cooldown: int)
    ensures Live(d, later, cooldown) == SumBy(d, (e: Entry<string, int>) => if later - e.value < cooldown then 1 else 0)
  {
  }

  /** The hard cap drops a live cooldown exactly when more than 5000 entries are live. */
  lemma CapDropsLiveExactly(d: Fired, later: int, cooldown: int)
    requires Valid(d) && |d| > 5000
    ensures (exists k :: k in Oldest(d) && Get(d, k).Some? && later - Get(d, k).value < cooldown)
       <==> Live(d, later, cooldown) > 5000
  {
    var n := |d| - MAX_ENTRIES;
    hide ByAge, Live, IndexOf, Get, Oldest;
    LiveByAge(d, later, cooldown);
    OldestCount(d);
    forall j | 0 <= j < n ensures Get(d, Oldest(d)[j]) == Some(ByAge(d)[j].value) {
      DroppedAt(d, j);
    }
    if Live(d, later, cooldown) > MAX_ENTRIES {
      assert Oldest(d)[n - 1] in Oldest(d);
    }
  }

  lemma OldestCount(d: Fired)
    ensures |ByAge(d)| == |d| && |Oldest(d)| == Max(0, |d| - MAX_ENTRIES)
  {
  }

  /** The keys the cap drops are distinct. */
  lemma DroppedApart(d: Fired)
    requires Valid(d)
    ensures forall i, j :: 0 <= i < j < |Oldest(d)| ==> Oldest(d)[i] != Oldest(d)[j]
  {
    hide SortBy;
    SortApart(d, (e: Entry<string, int>) => e.value, (e: Entry<string, int>) => e.key);
  }

  /** The keys the cap drops are distinct keys of the map, so exactly 5000 entries stay. */
  lemma CapSize(d: Fired)
    requires Valid(d)
    ensures Valid(RemoveAll(d, Oldest(d)))
    ensures |RemoveAll(d, Oldest(d))| == Min(|d|, 5000)
  {
    hide Oldest, RemoveAll, IndexOf, ByAge;
    RemoveAllGet(d, Oldest(d), "");
    OldestCount(d);
    DroppedApart(d);
    forall k | k in Oldest(d) ensures Has(d, k) {
      var j :| 0 <= j < |Oldest(d)| && Oldest(d)[j] == k;
      DroppedAt(d, j);
    }
    RemoveAllSize(d, Oldest(d));
    RemoveNone(d);
  }

  lemma RemoveNone(d: Fired)
    ensures RemoveAll(d, []) == d
  {
  }

  /** A delivery cleans up when the map then has a multiple of 100 entries, or more than 5000. */
  predicate EvictionRuns(d: Fired, a: Attempt) {
    var n := |Set(d, a.key, a.now)|;
    n % 100 == 0 || n > 5000
  }

  // ------------------------------------------- size and the key just fired

  lemma {:induction false} InsertBeforeLast(y: Entry<string, int>, s: Fired, x: Entry<string, int>)
    requires y.value <= x.value
    ensures var key := (e: Entry<string, int>) => e.value;
            Insert(y, s + [x], key) == Insert(y, s, key) + [x]
  {
    if s != [] && y.value > s[0].value {
      assert (s + [x])[1..] == s[1..] + [x];
      InsertBeforeLast(y, s[1..], x);
    }
  }

  /** The last entry of a dict, if no other is newer, is the last in age order. */
  lemma {:induction false} NewestLast(s: Fired, x: Entry<string, int>)
    requires forall e :: e in s ==> e.value <= x.value
    ensures ByAge(s + [x]) == ByAge(s) + [x]
  {
    var key := (e: Entry<string, int>) => e.value;
    if s == [] {
      assert s + [x] == [x];
      assert SortBy([x], key) == Insert(x, SortBy([x][1..], key), key);
    } else {
      assert (s + [x])[1..] == s[1..] + [x];
      NewestLast(s[1..], x);
      InsertBeforeLast(s[0], ByAge(s[1..]), x);
    }
  }

  /** Removing another key leaves the last entry last. */
  lemma RemoveBeforeLast(t: Fired, x: Entry<string, int>, k: string) returns (u: Fired)
    requires k != x.key
    ensures Remove(t + [x], k) == u + [x] && forall e :: e in u ==> e in t
  {
    var i := IndexOf(t + [x], k);
    if i <= |t| {
      assert (t + [x])[|t|] == x;
      u := t[..i] + t[i + 1..];
      assert (t + [x])[..i] + (t + [x])[i + 1..] == u + [x];
    } else {
      u := t;
    }
  }

  lemma {:induction false} RemoveAllLast(s: Fired, x: Entry<string, int>, ks: seq<string>) returns (u: Fired)
    requires x.key !in ks
    ensures RemoveAll(s + [x], ks) == u + [x] && forall e :: e in u ==> e in s
  {
    if ks == [] {
      u := s;
    } else {
      hide Remove;
      var n := |ks| - 1;
      assert ks[n] in ks;
      var t := RemoveAllLast(s, x, ks[..n]);
      u := RemoveBeforeLast(t, x, ks[n]);
    }
  }

  ghost predicate Past(d: Fired, now: int) { forall e :: e in d ==> e.value <= now }

  /** The hard cap never drops the entry just written. */
  lemma CapSparesNewest(d: Fired, a: Attempt)
    requires Valid(d) && |d| <= MAX_ENTRIES && Past(d, a.now)
    ensures Valid(Recorded(d, a)) && |Recorded(d, a)| <= MAX_ENTRIES + 1
    ensures Get(Recorded(d, a), a.key).Some? ==> a.key !in Oldest(Recorded(d, a))
  {
    var m, x := Set(d, a.key, a.now), Entry(a.key, a.now);
    SetGet(d, a.key, a.now, a.key);
    EvictGet(m, a.later, a.key);
    var e := Recorded(d, a);
    if |e| > MAX_ENTRIES && Get(e, a.key).Some? {
      hide IndexOf, RemoveAll;
      assert m == d + [x];
      var stale := KeysOf(Filter(m, (y: Entry<string, int>) => y.value < a.later - EVICT_AGE));
      RemoveAllGet(m, stale, a.key);
      assert a.key !in stale;
      var t := RemoveAllLast(d, x, stale);
      NewestLast(t, x);
      var s, n := ByAge(e), |e| - MAX_ENTRIES;
      assert s[|e| - 1] == x;
      SortApart(e, (y: Entry<string, int>) => y.value, (y: Entry<string, int>) => y.key);
      assert forall j :: 0 <= j < n ==> Oldest(e)[j] == s[j].key && s[j].key != x.key;
    }
  }

  /**
   * After a delivered alert the map holds at most 5000 entries, and the key just fired is among them unless
   * an eviction ran more than two hours after the alert was decided.
   */
  lemma RecordBounded(d: Fired, a: Attempt)
    requires Valid(d) && |d| <= 5000 && Past(d, a.now)
    ensures Valid(Record(d, a)) && |Record(d, a)| <= 5000
    ensures Get(Record(d, a), a.key)
         == if EvictionRuns(d, a) && a.later - a.now > 7200 then None else Some(a.now)
  {
    hide IndexOf, RemoveAll, Oldest;
    SetGet(d, a.key, a.now, a.key);
    EvictGet(Set(d, a.key, a.now), a.later, a.key);
    CapSparesNewest(d, a);
    CapSize(Recorded(d, a));
    RemoveAllGet(Recorded(d, a), Oldest(Recorded(d, a)), a.key);
  }

  /** An entry missing from the map after a delivered alert is stale, or was dropped by the cap. */
  lemma RecordGet(d: Fired, a: Attempt, k: string)
    requires Valid(d)
    ensures var before := if k == a.key then Some(a.now) else Get(d, k);
            var gone := EvictionRuns(d, a) && before.Some? && before.value < a.later - 7200;
            && Get(Recorded(d, a), k) == (if gone then None else before) && Valid(Recorded(d, a))
            && Get(Record(d, a), k) == if k in Oldest(Recorded(d, a)) then None else Get(Recorded(d, a), k)
  {
    hide IndexOf, RemoveAll, Oldest;
    SetGet(d, a.key, a.now, k);
    EvictGet(Set(d, a.key, a.now), a.later, k);
    RemoveAllGet(Recorded(d, a), Oldest(Recorded(d, a)), k);
  }
}

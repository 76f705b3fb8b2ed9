/**
 * Whole runs of alerts: the bounded cooldown map against an unbounded one, and exactly which runs keep delivered
 * alerts of one key a cooldown apart. A tick of the integer clock stands for its finest unit.
 */
module AlertRuns {
  import opened Collections
  import opened OrderedDicts
  import opened AlertCooldown

  /** The bounded map after a run of attempts. */
  function Bounded(attempts: seq<Attempt>, cooldown: int): Fired {
    if attempts == [] then []
    else Next(Bounded(attempts[..|attempts| - 1], cooldown), attempts[|attempts| - 1], cooldown)
  }

  function Lookup(m: map<string, int>, k: string): Option<int> { if k in m then Some(m[k]) else None }

  function NextUnbounded(m: map<string, int>, a: Attempt, cooldown: int): map<string, int> {
    if Suppressed(Lookup(m, a.key), a.now, cooldown) then m else m[a.key := a.now]
  }

  /** The reference: the time every key was last delivered, never forgotten. */
  function Unbounded(attempts: seq<Attempt>, cooldown: int): map<string, int> {
    if attempts == [] then map[]
    else NextUnbounded(Unbounded(attempts[..|attempts| - 1], cooldown), attempts[|attempts| - 1], cooldown)
  }

  /** Attempt i of a run is sent on. */
  predicate Delivered(attempts: seq<Attempt>, i: nat, cooldown: int)
    requires i < |attempts|
  {
    !Suppressed(Get(Bounded(attempts[..i], cooldown), attempts[i].key), attempts[i].now, cooldown)
  }

  /** Clock readings never go back. */
  ghost predicate Monotone(attempts: seq<Attempt>) {
    && (forall i :: 0 <= i < |attempts| ==> attempts[i].now <= attempts[i].later)
    && (forall i, j :: 0 <= i < j < |attempts| ==> attempts[i].later <= attempts[j].now)
  }

  // --------------------------------------------- what a delivery may throw away

  /** Eviction by age, when it runs, removes no entry whose cooldown is still running. */
  ghost predicate AgeSpares(d: Fired, a: Attempt, cooldown: int) {
    EvictionRuns(d, a) ==>
      forall e :: e in Set(d, a.key, a.now) && e.value < a.later - 7200 ==> a.later - e.value >= cooldown
  }

  /** At most 5000 entries are live when the hard cap applies. */
  predicate CapSpares(d: Fired, a: Attempt, cooldown: int) {
    Live(Recorded(d, a), a.later, cooldown) <= 5000
  }

  /** Neither condition fails at any delivered attempt of the run. */
  ghost predicate AllSpared(attempts: seq<Attempt>, cooldown: int) {
    forall i :: 0 <= i < |attempts| ==> SparedAt(attempts, i, cooldown)
  }

  ghost predicate SparedAt(attempts: seq<Attempt>, i: nat, cooldown: int)
    requires i < |attempts|
  {
    Delivered(attempts, i, cooldown) ==>
      var d := Bounded(attempts[..i], cooldown);
      AgeSpares(d, attempts[i], cooldown) && CapSpares(d, attempts[i], cooldown)
  }

  // ------------------------------------------------------------- one attempt

  /** The bounded map is the reference less entries whose cooldown has run out by time t. */
  ghost predicate InSync(d: Fired, m: map<string, int>, t: int, cooldown: int) {
    forall k :: Get(d, k) == Lookup(m, k) || (Get(d, k).None? && t - Lookup(m, k).value >= cooldown)
  }

  ghost predicate Within(d: Fired, m: map<string, int>) {
    forall k :: Get(d, k).Some? ==> Get(d, k) == Lookup(m, k)
  }

  /** In sync means exactly: the same decision for every key from time t on. */
  lemma InSyncExactly(d: Fired, m: map<string, int>, t: int, cooldown: int)
    requires Within(d, m)
    ensures InSync(d, m, t, cooldown)
       <==> forall k, now :: now >= t ==> Suppressed(Get(d, k), now, cooldown) == Suppressed(Lookup(m, k), now, cooldown)
  {
    if forall k, now :: now >= t ==> Suppressed(Get(d, k), now, cooldown) == Suppressed(Lookup(m, k), now, cooldown) {
      forall k ensures Get(d, k) == Lookup(m, k) || (Get(d, k).None? && t - Lookup(m, k).value >= cooldown) {
        assert Suppressed(Get(d, k), t, cooldown) == Suppressed(Lookup(m, k), t, cooldown);
      }
    }
  }

  lemma SyncLasts(d: Fired, m: map<string, int>, t: int, u: int, cooldown: int)
    requires InSync(d, m, t, cooldown) && t <= u
    ensures InSync(d, m, u, cooldown)
  {
  }

  lemma SameDecision(d: Fired, m: map<string, int>, t: int, k: string, cooldown: int)
    requires InSync(d, m, t, cooldown)
    ensures Suppressed(Get(d, k), t, cooldown) == Suppressed(Lookup(m, k), t, cooldown)
  {
  }

  /** A spared delivery keeps the maps in sync. */
  lemma SparedInSync(d: Fired, m: map<string, int>, a: Attempt, cooldown: int)
    requires Valid(d) && InSync(d, m, a.now, cooldown) && a.now <= a.later
    requires AgeSpares(d, a, cooldown) && CapSpares(d, a, cooldown)
    ensures InSync(Record(d, a), m[a.key := a.now], a.later, cooldown)
  {
    hide IndexOf, RemoveAll, Live, Recorded, Record, Set, Oldest;
    var e := Recorded(d, a);
    SetGet(d, a.key, a.now, a.key);
    forall k
      ensures var r, l := Get(Record(d, a), k), Lookup(m[a.key := a.now], k);
              r == l || (r.None? && a.later - l.value >= cooldown)
    {
      RecordGet(d, a, k);
      SetGet(d, a.key, a.now, k);
      GetEntry(Set(d, a.key, a.now), k);
      if k in Oldest(e) {
        OldestCount(e);
        CapDropsLiveExactly(e, a.later, cooldown);
      }
    }
  }

  /** An entry evicted by age within its cooldown puts them out of sync, */
  lemma AgeLoses(d: Fired, m: map<string, int>, a: Attempt, cooldown: int)
    requires Valid(d) && InSync(d, m, a.now, cooldown) && !AgeSpares(d, a, cooldown)
    ensures !InSync(Record(d, a), m[a.key := a.now], a.later, cooldown)
  {
    hide IndexOf, RemoveAll, Recorded, Record, Set, Oldest;
    var s := Set(d, a.key, a.now);
    var e :| e in s && e.value < a.later - 7200 && a.later - e.value < cooldown;
    var i :| 0 <= i < |s| && s[i] == e;
    SetGet(d, a.key, a.now, e.key);
    KeyOf(s, i);
    RecordGet(d, a, e.key);
    assert Lookup(m[a.key := a.now], e.key) == Some(e.value);
  }

  /** and so does a live one dropped by the cap. */
  lemma CapLoses(d: Fired, m: map<string, int>, a: Attempt, cooldown: int)
    requires Valid(d) && InSync(d, m, a.now, cooldown) && !CapSpares(d, a, cooldown)
    ensures !InSync(Record(d, a), m[a.key := a.now], a.later, cooldown)
  {
    hide IndexOf, RemoveAll, Recorded, Record, Oldest, Live;
    var e := Recorded(d, a);
    RecordGet(d, a, a.key);
    LiveByAge(e, a.later, cooldown);
    CapDropsLiveExactly(e, a.later, cooldown);
    var k :| k in Oldest(e) && Get(e, k).Some? && a.later - Get(e, k).value < cooldown;
    RecordGet(d, a, k);
    assert Lookup(m[a.key := a.now], k) == Get(e, k);
  }

  /** After one attempt the maps are in sync exactly when it delivered nothing, or spared every live entry. */
  lemma NextInSyncExactly(d: Fired, m: map<string, int>, a: Attempt, cooldown: int)
    requires Valid(d) && InSync(d, m, a.now, cooldown) && a.now <= a.later
    ensures Within(Next(d, a, cooldown), NextUnbounded(m, a, cooldown))
    ensures InSync(Next(d, a, cooldown), NextUnbounded(m, a, cooldown), a.later, cooldown)
       <==> (Suppressed(Get(d, a.key), a.now, cooldown) || (AgeSpares(d, a, cooldown) && CapSpares(d, a, cooldown)))
  {
    hide Record, Recorded, AgeSpares, CapSpares, IndexOf, Oldest;
    SameDecision(d, m, a.now, a.key, cooldown);
    if Suppressed(Get(d, a.key), a.now, cooldown) {
      SyncLasts(d, m, a.now, a.later, cooldown);
    } else {
      forall k { RecordGet(d, a, k); }
      if !AgeSpares(d, a, cooldown) {
        AgeLoses(d, m, a, cooldown);
      } else if !CapSpares(d, a, cooldown) {
        CapLoses(d, m, a, cooldown);
      } else {
        SparedInSync(d, m, a, cooldown);
      }
    }
  }

  // ------------------------------------------------------------- whole runs

  /** After every run: at most 5000 entries, none dated after the last attempt. */
  lemma {:induction false} RunValid(attempts: seq<Attempt>, cooldown: int)
    requires Monotone(attempts)
    ensures Valid(Bounded(attempts, cooldown)) && |Bounded(attempts, cooldown)| <= 5000
    ensures attempts != [] ==> Past(Bounded(attempts, cooldown), attempts[|attempts| - 1].later)
    ensures attempts == [] ==> Bounded(attempts, cooldown) == []
  {
    if attempts != [] {
      hide IndexOf, RemoveAll, Record, Recorded;
      var n := |attempts| - 1;
      var d, a := Bounded(attempts[..n], cooldown), attempts[n];
      RunValid(attempts[..n], cooldown);
      assert n > 0 ==> attempts[..n][n - 1] == attempts[n - 1];
      RecordBounded(d, a);
      forall e | e in Record(d, a) ensures e.value <= a.later {
        var i :| 0 <= i < |Record(d, a)| && Record(d, a)[i] == e;
        KeyOf(Record(d, a), i);
        RecordGet(d, a, e.key);
        GetEntry(d, e.key);
      }
    }
  }

  /** The clock reading after a run; 0 before anything happened. */
  function EndOf(attempts: seq<Attempt>): int {
    if attempts == [] then 0 else attempts[|attempts| - 1].later
  }

  lemma SparedPrefix(attempts: seq<Attempt>, n: nat, cooldown: int)
    requires n <= |attempts| && Monotone(attempts)
    ensures Monotone(attempts[..n])
    ensures (forall i :: 0 <= i < n ==> SparedAt(attempts, i, cooldown)) <==> AllSpared(attempts[..n], cooldown)
    ensures 0 < n < |attempts| ==> EndOf(attempts[..n]) <= attempts[n].now
  {
    hide Bounded, AgeSpares, CapSpares;
    assert forall i :: 0 <= i < n ==> attempts[..n][..i] == attempts[..i];
    assert forall i :: 0 <= i < n ==> SparedAt(attempts[..n], i, cooldown) == SparedAt(attempts, i, cooldown);
  }

  /** As long as every delivery spares the live entries, the maps are in sync. */
  lemma {:induction false} RunInSync(attempts: seq<Attempt>, cooldown: int, t: int)
    requires Monotone(attempts) && AllSpared(attempts, cooldown)
    requires attempts != [] ==> EndOf(attempts) <= t
    ensures InSync(Bounded(attempts, cooldown), Unbounded(attempts, cooldown), t, cooldown)
  {
    if attempts != [] {
      var n := |attempts| - 1;
      var d, m, a := Bounded(attempts[..n], cooldown), Unbounded(attempts[..n], cooldown), attempts[n];
      assert SparedAt(attempts, n, cooldown);
      hide InSync, Within, Next, NextUnbounded, Valid, AllSpared, AgeSpares, CapSpares;
      SparedPrefix(attempts, n, cooldown);
      RunInSync(attempts[..n], cooldown, a.now);
      RunValid(attempts[..n], cooldown);
      NextInSyncExactly(d, m, a, cooldown);
      SyncLasts(Next(d, a, cooldown), NextUnbounded(m, a, cooldown), a.later, t, cooldown);
    }
  }

  /** The first delivery that does not spare a live entry leaves a key that is forgotten within its cooldown. */
  lemma FirstLoss(attempts: seq<Attempt>, n: nat, cooldown: int) returns (k: string)
    requires Monotone(attempts) && |attempts| == n + 1
    requires AllSpared(attempts[..n], cooldown) && !SparedAt(attempts, n, cooldown)
    ensures Get(Bounded(attempts, cooldown), k).None?
    ensures var last := Lookup(Unbounded(attempts, cooldown), k);
            last.Some? && EndOf(attempts) - last.value < cooldown
  {
    var d, m, a := Bounded(attempts[..n], cooldown), Unbounded(attempts[..n], cooldown), attempts[n];
    hide AgeSpares, CapSpares, Valid, AllSpared;
    SparedPrefix(attempts, n, cooldown);
    RunInSync(attempts[..n], cooldown, a.now);
    RunValid(attempts[..n], cooldown);
    NextInSyncExactly(d, m, a, cooldown);
    assert Bounded(attempts, cooldown) == Next(d, a, cooldown) && Unbounded(attempts, cooldown) == NextUnbounded(m, a, cooldown);
    hide Bounded, Unbounded, Next, NextUnbounded;
    k :| !(Get(Bounded(attempts, cooldown), k) == Lookup(Unbounded(attempts, cooldown), k)
           || (Get(Bounded(attempts, cooldown), k).None? && a.later - Lookup(Unbounded(attempts, cooldown), k).value >= cooldown));
  }

  /** If any delivery of a run loses a live entry, some delivery is the first to do so. */
  lemma {:induction false} FirstUnspared(attempts: seq<Attempt>, cooldown: int) returns (n: nat)
    requires Monotone(attempts) && !AllSpared(attempts, cooldown)
    ensures n < |attempts| && Monotone(attempts[..n + 1])
    ensures AllSpared(attempts[..n + 1][..n], cooldown) && !SparedAt(attempts[..n + 1], n, cooldown)
  {
    var last := |attempts| - 1;
    hide SparedAt;
    SparedPrefix(attempts, last, cooldown);
    if AllSpared(attempts[..last], cooldown) {
      n := last;
      assert attempts[..n + 1] == attempts;
    } else {
      n := FirstUnspared(attempts[..last], cooldown);
      assert attempts[..last][..n + 1] == attempts[..n + 1];
    }
  }

  // -------------------------------------------------------- the refinement

  /** Whatever is attempted next, it is decided as by a map that never forgets. */
  ghost predicate Faithful(attempts: seq<Attempt>, cooldown: int) {
    forall k, now :: (attempts != [] ==> now >= EndOf(attempts)) ==>
      Suppressed(Get(Bounded(attempts, cooldown), k), now, cooldown)
      == Suppressed(Lookup(Unbounded(attempts, cooldown), k), now, cooldown)
  }

  /**
   * Cooldown refinement, for every cooldown. At each point of a run the next decision is the one of an unbounded
   * map, if and only if no delivery evicts by age an entry still within the cooldown, nor has more than 5000
   * live entries when the hard cap applies.
   */
  lemma CooldownRefinesExactly(attempts: seq<Attempt>, cooldown: int)
    requires Monotone(attempts)
    ensures (forall n :: 0 <= n <= |attempts| ==> Faithful(attempts[..n], cooldown)) <==> AllSpared(attempts, cooldown)
  {
    hide Bounded, Unbounded, SparedAt;
    if AllSpared(attempts, cooldown) {
      forall n | 0 <= n <= |attempts| ensures Faithful(attempts[..n], cooldown) {
        SparedPrefix(attempts, n, cooldown);
        SparedFaithful(attempts[..n], cooldown);
      }
    } else {
      var n := FirstUnspared(attempts, cooldown);
      var k := FirstLoss(attempts[..n + 1], n, cooldown);
      assert Suppressed(Lookup(Unbounded(attempts[..n + 1], cooldown), k), EndOf(attempts[..n + 1]), cooldown);
      assert !Faithful(attempts[..n + 1], cooldown);
    }
  }

  lemma SparedFaithful(attempts: seq<Attempt>, cooldown: int)
    requires Monotone(attempts) && AllSpared(attempts, cooldown)
    ensures Faithful(attempts, cooldown)
  {
    hide Bounded, Unbounded, AllSpared, Monotone;
    forall k, now | attempts != [] ==> now >= EndOf(attempts)
      ensures Suppressed(Get(Bounded(attempts, cooldown), k), now, cooldown)
           == Suppressed(Lookup(Unbounded(attempts, cooldown), k), now, cooldown)
    {
      RunInSync(attempts, cooldown, now);
    }
  }

  /** While the deliveries before it spare the live entries, an attempt is decided as by the map that never forgets. */
  lemma CooldownRefines(attempts: seq<Attempt>, cooldown: int, i: nat)
    requires Monotone(attempts) && i < |attempts| && AllSpared(attempts[..i], cooldown)
    ensures Delivered(attempts, i, cooldown)
         == !Suppressed(Lookup(Unbounded(attempts[..i], cooldown), attempts[i].key), attempts[i].now, cooldown)
  {
    hide Bounded, Unbounded, AllSpared, InSync;
    SparedPrefix(attempts, i, cooldown);
    RunInSync(attempts[..i], cooldown, attempts[i].now);
    SameDecision(Bounded(attempts[..i], cooldown), Unbounded(attempts[..i], cooldown), attempts[i].now, attempts[i].key, cooldown);
  }

  // ------------------------------------------------- deliveries a cooldown apart

  /** Delivered alerts of one key are at least the cooldown apart. */
  ghost predicate Spaced(attempts: seq<Attempt>, cooldown: int) {
    forall i, j :: 0 <= i < j < |attempts| && attempts[i].key == attempts[j].key
                   && Delivered(attempts, i, cooldown) && Delivered(attempts, j, cooldown) ==>
      attempts[j].now - attempts[i].now >= cooldown
  }

  /** The reference remembers the last delivery of a key, */
  lemma {:induction false} Remembers(attempts: seq<Attempt>, cooldown: int, i: nat, j: nat)
    requires Monotone(attempts) && i < j <= |attempts| && AllSpared(attempts[..j], cooldown)
    requires Delivered(attempts, i, cooldown)
    ensures var last := Lookup(Unbounded(attempts[..j], cooldown), attempts[i].key);
            last.Some? && last.value >= attempts[i].now
    decreases j
  {
    hide Bounded, InSync, SparedAt;
    var n := j - 1;
    SparedPrefix(attempts, j, cooldown);
    SparedPrefix(attempts, n, cooldown);
    assert attempts[..j][..n] == attempts[..n];
    CooldownRefines(attempts, cooldown, n);
    if i < n { Remembers(attempts, cooldown, i, n); }
  }

  /** and remembers nothing else. */
  lemma {:induction false} WasDelivered(attempts: seq<Attempt>, cooldown: int, k: string) returns (j: nat)
    requires Monotone(attempts) && attempts != [] && AllSpared(attempts[..|attempts| - 1], cooldown)
    requires Lookup(Unbounded(attempts, cooldown), k).Some?
    ensures j < |attempts| && Delivered(attempts, j, cooldown)
    ensures attempts[j].key == k && Lookup(Unbounded(attempts, cooldown), k) == Some(attempts[j].now)
  {
    var n := |attempts| - 1;
    var m, a := Unbounded(attempts[..n], cooldown), attempts[n];
    assert Unbounded(attempts, cooldown) == NextUnbounded(m, a, cooldown);
    assert n == 0 ==> m == map[];
    hide Bounded, InSync, SparedAt, Unbounded;
    SparedPrefix(attempts, n, cooldown);
    CooldownRefines(attempts, cooldown, n);
    if Delivered(attempts, n, cooldown) && k == a.key {
      j := n;
    } else {
      SparedPrefix(attempts[..n], n - 1, cooldown);
      j := WasDelivered(attempts[..n], cooldown, k);
      assert attempts[..n][..j] == attempts[..j];
    }
  }

  /** While every delivery before j spares the live entries, delivery j is a cooldown after every earlier one of its key. */
  lemma DeliveriesSpaced(attempts: seq<Attempt>, cooldown: int, i: nat, j: nat)
    requires Monotone(attempts) && i < j < |attempts| && AllSpared(attempts[..j], cooldown)
    requires attempts[i].key == attempts[j].key && Delivered(attempts, i, cooldown) && Delivered(attempts, j, cooldown)
    ensures attempts[j].now - attempts[i].now >= cooldown
  {
    hide Bounded, Unbounded, InSync, SparedAt;
    Remembers(attempts, cooldown, i, j);
    CooldownRefines(attempts, cooldown, j);
  }

  lemma SparedSpaced(attempts: seq<Attempt>, cooldown: int)
    requires Monotone(attempts) && attempts != [] && AllSpared(attempts[..|attempts| - 1], cooldown)
    ensures Spaced(attempts, cooldown)
  {
    hide SparedAt, Delivered;
    SparedPrefix(attempts, |attempts| - 1, cooldown);
    forall i, j | 0 <= i < j < |attempts| && attempts[i].key == attempts[j].key
                  && Delivered(attempts, i, cooldown) && Delivered(attempts, j, cooldown)
      ensures attempts[j].now - attempts[i].now >= cooldown
    {
      SparedPrefix(attempts, j, cooldown);
      DeliveriesSpaced(attempts, cooldown, i, j);
    }
  }

  /**
   * What the cooldown is for. From each point of a run on, the next alert delivered can only be a cooldown after
   * every earlier one of its key, if and only if no delivery of the run threw away a live entry.
   */
  lemma SpacedExactly(attempts: seq<Attempt>, cooldown: int)
    requires Monotone(attempts)
    ensures (forall n, a :: 0 <= n <= |attempts| && Monotone(attempts[..n] + [a]) ==> Spaced(attempts[..n] + [a], cooldown))
       <==> AllSpared(attempts, cooldown)
  {
    hide SparedAt, Delivered, Bounded, Unbounded;
    if AllSpared(attempts, cooldown) {
      forall n, a | 0 <= n <= |attempts| && Monotone(attempts[..n] + [a]) ensures Spaced(attempts[..n] + [a], cooldown) {
        SparedPrefix(attempts, n, cooldown);
        assert (attempts[..n] + [a])[..n] == attempts[..n];
        SparedSpaced(attempts[..n] + [a], cooldown);
      }
    } else {
      var n := FirstUnspared(attempts, cooldown);
      var k := FirstLoss(attempts[..n + 1], n, cooldown);
      Repeated(attempts[..n + 1], cooldown, k);
    }
  }

  /** A key forgotten within its cooldown is delivered again at once. */
  lemma Repeated(attempts: seq<Attempt>, cooldown: int, k: string)
    requires Monotone(attempts) && attempts != [] && AllSpared(attempts[..|attempts| - 1], cooldown)
    requires Get(Bounded(attempts, cooldown), k).None?
    requires var last := Lookup(Unbounded(attempts, cooldown), k); last.Some? && EndOf(attempts) - last.value < cooldown
    ensures var a := Attempt(k, EndOf(attempts), EndOf(attempts));
            Monotone(attempts + [a]) && !Spaced(attempts + [a], cooldown)
  {
    var a, n := Attempt(k, EndOf(attempts), EndOf(attempts)), |attempts|;
    var run := attempts + [a];
    hide Bounded, Unbounded, SparedAt;
    var j := WasDelivered(attempts, cooldown, k);
    assert run[..n] == attempts && run[..j] == attempts[..j];
    assert Delivered(run, j, cooldown) && Delivered(run, n, cooldown);
  }

  // ----------------------------------------------------- runs that are not spaced

  /** Different keys for different numbers. */
  function Key(i: nat): string { seq(i, _ => 'x') }

  /** n different alerts at time 0. */
  function Burst(n: nat): seq<Attempt> { seq(n, i requires 0 <= i < n => Attempt(Key(i), 0, 0)) }

  function BurstDict(n: nat): Fired { seq(n, i requires 0 <= i < n => Entry(Key(i), 0)) }

  lemma BurstLookup(n: nat, i: nat)
    ensures Valid(BurstDict(n)) && Get(BurstDict(n), Key(i)) == if i < n then Some(0) else None
  {
    forall j, k | 0 <= j < k < n ensures BurstDict(n)[j].key != BurstDict(n)[k].key {
      assert |Key(j)| < |Key(k)|;
    }
    forall j | 0 <= j < n && j != i ensures BurstDict(n)[j].key != Key(i) {
      assert |Key(j)| == j && |Key(i)| == i;
    }
    IndexIs(BurstDict(n), Key(i), Min(i, n));
  }

  lemma {:induction false} NoneStale(d: Fired, cutoff: int)
    requires forall e :: e in d ==> e.value >= cutoff
    ensures Filter(d, (e: Entry<string, int>) => e.value < cutoff) == []
  {
    if d != [] {
      NoneStale(d[1..], cutoff);
    }
  }

  lemma BurstRecorded(n: nat)
    ensures Recorded(BurstDict(n), Attempt(Key(n), 0, 0)) == BurstDict(n + 1)
  {
    BurstLookup(n, n);
    assert !Has(BurstDict(n), Key(n));
    hide IndexOf, Get;
    var m := Set(BurstDict(n), Key(n), 0);
    assert m == BurstDict(n + 1);
    var stale := Filter(m, (e: Entry<string, int>) => e.value < 0 - EVICT_AGE);
    assert stale == [] by { NoneStale(m, 0 - EVICT_AGE); }
    RemoveNone(m);
    assert Evict(m, 0) == RemoveAll(m, KeysOf(stale));
  }

  /** Up to 5000 different alerts are all delivered and all remembered. */
  lemma {:induction false} BurstBounded(n: nat, cooldown: int)
    requires n <= 5000
    ensures Bounded(Burst(n), cooldown) == BurstDict(n)
  {
    if n > 0 {
      var a := Attempt(Key(n - 1), 0, 0);
      assert |Burst(n)| == n && |BurstDict(n)| == n && Burst(n)[..n - 1] == Burst(n - 1) && Burst(n)[n - 1] == a;
      assert Bounded(Burst(n), cooldown) == Next(Bounded(Burst(n - 1), cooldown), a, cooldown);
      hide Bounded, Burst, BurstDict, Key, Get, Recorded, RemoveAll, Oldest;
      BurstBounded(n - 1, cooldown);
      BurstLookup(n - 1, n - 1);
      BurstRecorded(n - 1);
      OldestCount(BurstDict(n));
      RemoveNone(BurstDict(n));
    }
  }

  lemma BurstDelivered(run: seq<Attempt>, n: nat, i: nat, cooldown: int)
    requires i < n <= 5001 && n <= |run| && run[..n] == Burst(n)
    ensures Delivered(run, i, cooldown)
  {
    assert run[..i] == run[..n][..i] == Burst(i);
    assert run[i] == run[..n][i];
    BurstBounded(i, cooldown);
    BurstLookup(i, i);
  }

  /** Entries of one age are in dict order. */
  lemma {:induction false} OneAge(d: Fired, v: int)
    requires forall e :: e in d ==> e.value == v
    ensures ByAge(d) == d
  {
    if d != [] {
      OneAge(d[1..], v);
      assert forall e :: e in d[1..] ==> e in d;
      assert d == [d[0]] + d[1..];
    }
  }

  /** The alert that takes the map past 5000 entries makes it forget the first one. */
  lemma BurstForgets(cooldown: int)
    ensures Get(Bounded(Burst(5001), cooldown), Key(0)).None?
  {
    var n := 5000;
    var a, d, e := Attempt(Key(n), 0, 0), BurstDict(n), BurstDict(n + 1);
    BurstLookup(n, n);
    BurstRecorded(n);
    BurstBounded(n, cooldown);
    assert Burst(n + 1)[..n] == Burst(n) && Burst(n + 1)[n] == a;
    assert Bounded(Burst(n + 1), cooldown) == Next(d, a, cooldown) == Record(d, a);
    OneAge(e, 0);
    assert Oldest(e)[0] == Key(0) by {
      hide ByAge;
      assert Oldest(e)[0] == e[0].key;
    }
    hide Record, Recorded, Oldest, Bounded;
    RecordGet(d, a, Key(0));
  }

  /** Too many alerts: 5001 different ones inside one cooldown, and the first is delivered again at the same instant. */
  lemma CapRunRepeats(cooldown: int)
    requires cooldown > 0
    ensures var run := Burst(5001) + [Attempt(Key(0), 0, 0)];
            Monotone(run) && Delivered(run, 0, cooldown) && Delivered(run, 5001, cooldown) && !Spaced(run, cooldown)
  {
    var n := 5001;
    var run := Burst(n) + [Attempt(Key(0), 0, 0)];
    assert run[..n] == Burst(n);
    BurstDelivered(run, n, 0, cooldown);
    BurstForgets(cooldown);
    hide Bounded;
    assert Delivered(run, n, cooldown);
    assert run[0].key == run[n].key && run[n].now - run[0].now == 0;
  }

  /** 99 alerts, a 100th when they are older than the eviction age, and the first again at the same instant. */
  function LongRun(): seq<Attempt> {
    Burst(99) + [Attempt(Key(99), 7201, 7201), Attempt(Key(0), 7201, 7201)]
  }

  lemma LongRunStep(cooldown: int)
    ensures Bounded(LongRun()[..100], cooldown) == Record(BurstDict(99), Attempt(Key(99), 7201, 7201))
  {
    var run := LongRun()[..100];
    assert |run| == 100 && run[..99] == Burst(99) && run[99] == Attempt(Key(99), 7201, 7201);
    assert Bounded(run, cooldown) == Next(Bounded(run[..99], cooldown), run[99], cooldown);
    hide Bounded, Record, LongRun, Get;
    BurstBounded(99, cooldown);
    BurstLookup(99, 99);
  }

  lemma KeysDiffer(i: nat, j: nat)
    requires i != j
    ensures Key(i) != Key(j)
  {
    assert |Key(i)| == i && |Key(j)| == j;
  }

  lemma LongRunForgets(cooldown: int)
    ensures Get(Bounded(LongRun()[..100], cooldown), Key(0)).None?
  {
    var d, a := BurstDict(99), Attempt(Key(99), 7201, 7201);
    LongRunStep(cooldown);
    BurstLookup(99, 99);
    BurstLookup(99, 0);
    KeysDiffer(0, 99);
    assert |Set(d, a.key, a.now)| == 100;
    hide Record, Recorded, Bounded, Set, Get, LongRun, Burst, BurstDict, Key;
    RecordGet(d, a, Key(0));
  }

  /** Too long a cooldown: the first alert is delivered again after 7201 ticks. */
  lemma LongRunRepeats(cooldown: int)
    requires cooldown > 7201
    ensures Monotone(LongRun()) && Delivered(LongRun(), 0, cooldown) && Delivered(LongRun(), 100, cooldown)
    ensures !Spaced(LongRun(), cooldown)
  {
    var run := LongRun();
    assert |run| == 101 && run[..99] == Burst(99) && Monotone(run);
    assert run[0] == Attempt(Key(0), 0, 0) && run[100] == Attempt(Key(0), 7201, 7201);
    hide LongRun, Burst, Key, Bounded, Monotone;
    BurstDelivered(run, 99, 0, cooldown);
    LongRunForgets(cooldown);
    assert Delivered(run, 100, cooldown);
    hide Delivered;
    assert run[0].key == run[100].key && run[100].now - run[0].now == 7201;
  }

  lemma {:induction false} RunSize(attempts: seq<Attempt>, cooldown: int)
    requires Monotone(attempts)
    ensures |Bounded(attempts, cooldown)| <= |attempts|
  {
    if attempts != [] {
      var n := |attempts| - 1;
      var d, a := Bounded(attempts[..n], cooldown), attempts[n];
      RunSize(attempts[..n], cooldown);
      RunValid(attempts[..n], cooldown);
      RecordSize(d, a);
      hide Record;
      assert |Next(d, a, cooldown)| <= |d| + 1;
    }
  }

  lemma RecordSize(d: Fired, a: Attempt)
    requires Valid(d)
    ensures |Recorded(d, a)| <= |d| + 1 && |Record(d, a)| <= |d| + 1
  {
    hide IndexOf, RemoveAll, Evict, Oldest;
    SetGet(d, a.key, a.now, a.key);
    EvictGet(Set(d, a.key, a.now), a.later, a.key);
    RemoveAllSize(Recorded(d, a), Oldest(Recorded(d, a)));
  }

  /** At no delivery of the run are more than 5000 entries live. */
  ghost predicate FewLive(attempts: seq<Attempt>, cooldown: int) {
    forall i :: 0 <= i < |attempts| && Delivered(attempts, i, cooldown) ==>
      CapSpares(Bounded(attempts[..i], cooldown), attempts[i], cooldown)
  }

  lemma ShortRunFewLive(attempts: seq<Attempt>, cooldown: int)
    requires Monotone(attempts) && |attempts| <= 5000
    ensures FewLive(attempts, cooldown)
  {
    hide Bounded, Recorded, Live, Delivered;
    forall i | 0 <= i < |attempts| && Delivered(attempts, i, cooldown)
      ensures CapSpares(Bounded(attempts[..i], cooldown), attempts[i], cooldown)
    {
      var d := Bounded(attempts[..i], cooldown);
      RunSize(attempts[..i], cooldown);
      RunValid(attempts[..i], cooldown);
      RecordSize(d, attempts[i]);
      LiveByAge(Recorded(d, attempts[i]), attempts[i].later, cooldown);
    }
  }

  /**
   * The cooldowns the eviction age can carry. Every run that never has more than 5000 live entries is spaced,
   * if and only if the cooldown is at most the least age that is evicted.
   */
  lemma CooldownLimitExactly(cooldown: int)
    ensures (forall attempts :: Monotone(attempts) && FewLive(attempts, cooldown) ==> Spaced(attempts, cooldown))
       <==> cooldown <= 7201
  {
    hide Bounded, Delivered;
    if cooldown <= 7201 {
      forall attempts | Monotone(attempts) && FewLive(attempts, cooldown) ensures Spaced(attempts, cooldown) {
        if attempts != [] {
          assert AllSpared(attempts, cooldown) by { hide CapSpares; }
          SparedPrefix(attempts, |attempts| - 1, cooldown);
          SparedSpaced(attempts, cooldown);
        }
      }
    } else {
      LongRunRepeats(cooldown);
      ShortRunFewLive(LongRun(), cooldown);
    }
  }
}

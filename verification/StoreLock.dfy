/**
 * scripts/check-store-lock.py: the set of store-locked functions, and rules 0 to 3.
 *
 * A line of code is given by what the script's patterns find in it: the lock call, the handle accessor, the
 * words followed by an opening parenthesis; and for rule 3 a read of a result string, the variable it is
 * assigned to, a call that keeps the pointer it is given, and all words.
 */
module StoreLock {
  import opened Collections
  import opened OrderedDicts

  const STORE := "src/engine/store.cyr"

  datatype CodeLine = CodeLine(lock: bool, fetch: bool, calls: seq<string>,
                               reading: bool, target: Option<string>, borrows: bool, words: seq<string>)

  datatype Fn = Fn(path: string, body: seq<CodeLine>)

  /** `fns`: the last definition found under each name. */
  type Program = Dict<string, Fn>

  predicate EndsWith(s: string, suffix: string) {
    |s| >= |suffix| && s[|s| - |suffix|..] == suffix
  }

  predicate IsLockedName(name: string) {
    EndsWith(name, "_locked") || EndsWith(name, "_locked_a")
  }

  /** The names a caller of the store may rely on: they end in `_locked` or in `_locked_a`. */
  lemma LockedNames(s: string)
    ensures IsLockedName(s) <==> exists p :: s == p + "_locked" || s == p + "_locked_a"
  {
    if EndsWith(s, "_locked") { assert s == s[..|s| - 7] + "_locked"; }
    if EndsWith(s, "_locked_a") { assert s == s[..|s| - 9] + "_locked_a"; }
    if p :| s == p + "_locked" || s == p + "_locked_a" {
      assert s[|p|..] == "_locked" || s[|p|..] == "_locked_a";
    }
  }

  predicate Fetches(body: seq<CodeLine>) { exists n :: 0 <= n < |body| && body[n].fetch }

  predicate CallsTo(body: seq<CodeLine>, callee: string) { exists n :: 0 <= n < |body| && callee in body[n].calls }

  /** The lock call stands on line n or before it. */
  predicate HoldsAt(body: seq<CodeLine>, n: nat) { exists k :: 0 <= k <= n && k < |body| && body[k].lock }

  // --------------------------------------------------------- specification

  /** A chain of `*_locked` functions, each calling the next, whose last one fetches the handle. */
  ghost predicate LockedChain(fns: Program, p: seq<string>) {
    && p != [] && Has(fns, p[0]) && IsLockedName(p[0])
    && var body := Get(fns, p[0]).value.body;
       if |p| == 1 then Fetches(body) else CallsTo(body, p[1]) && LockedChain(fns, p[1..])
  }

  /** The least set the fixpoint is after: `*_locked` functions that reach a fetch through `*_locked` functions. */
  ghost predicate StoreLocked(fns: Program, name: string) {
    exists p :: LockedChain(fns, p) && p[0] == name
  }

  /** What the script reports: rule 1 at a fetch (no callee), rule 2 at a call. */
  datatype Problem = Problem(fn: string, line: nat, callee: Option<string>)

  ghost predicate IsProblem(fns: Program, pr: Problem) {
    && Has(fns, pr.fn) && Get(fns, pr.fn).value.path != STORE && !IsLockedName(pr.fn)
    && var body := Get(fns, pr.fn).value.body;
       && pr.line < |body| && !HoldsAt(body, pr.line)
       && match pr.callee
          case None => body[pr.line].fetch
          case Some(callee) => callee in body[pr.line].calls && callee != pr.fn && StoreLocked(fns, callee)
  }

  // ------------------------------------------------------------ the program

  lemma EntryLookup(fns: Program, i: nat)
    requires Valid(fns) && i < |fns|
    ensures Has(fns, fns[i].key) && Get(fns, fns[i].key).value == fns[i].value
  {
    IndexIs(fns, fns[i].key, i);
  }

  function Names(fns: Program): set<string> { set e | e in fns :: e.key }

  ghost predicate Sound(fns: Program, s: set<string>) {
    forall f :: f in s ==> StoreLocked(fns, f)
  }

  /** Entry i adds nothing to s: it is in s, or not `*_locked`, or calls nobody in s. */
  ghost predicate Settled(fns: Program, s: set<string>, i: nat)
    requires i < |fns|
  {
    fns[i].key in s || !IsLockedName(fns[i].key) || forall t :: t in s ==> !CallsTo(fns[i].value.body, t)
  }

  ghost predicate HasSeeds(fns: Program, s: set<string>) {
    forall i :: 0 <= i < |fns| && IsLockedName(fns[i].key) && Fetches(fns[i].value.body) ==> fns[i].key in s
  }

  lemma SeedsSound(fns: Program, i: nat)
    requires Valid(fns) && i < |fns| && IsLockedName(fns[i].key) && Fetches(fns[i].value.body)
    ensures StoreLocked(fns, fns[i].key)
  {
    EntryLookup(fns, i);
    assert LockedChain(fns, [fns[i].key]);
  }

  lemma CallerSound(fns: Program, i: nat, t: string)
    requires Valid(fns) && i < |fns| && IsLockedName(fns[i].key)
    requires CallsTo(fns[i].value.body, t) && StoreLocked(fns, t)
    ensures StoreLocked(fns, fns[i].key)
  {
    EntryLookup(fns, i);
    var p :| LockedChain(fns, p) && p[0] == t;
    assert ([fns[i].key] + p)[1..] == p;
    assert LockedChain(fns, [fns[i].key] + p);
  }

  /** A settled set with the seeds holds the head of every chain. */
  lemma {:induction false} ChainInside(fns: Program, s: set<string>, p: seq<string>)
    requires Valid(fns) && HasSeeds(fns, s) && AllSettled(fns, s)
    requires LockedChain(fns, p)
    ensures p[0] in s
    decreases |p|
  {
    var i := IndexOf(fns, p[0]);
    if |p| > 1 {
      ChainInside(fns, s, p[1..]);
      assert Settled(fns, s, i);
    }
  }

  lemma SeedsKept(fns: Program, s: set<string>, t: set<string>)
    requires HasSeeds(fns, s) && s <= t
    ensures HasSeeds(fns, t)
  {
  }

  lemma OneMore(fns: Program, s: set<string>, i: nat, t: string)
    requires Valid(fns) && Sound(fns, s) && i < |fns| && IsLockedName(fns[i].key)
    requires t in s && CallsTo(fns[i].value.body, t)
    ensures Sound(fns, s + {fns[i].key}) && fns[i].key in Names(fns)
  {
    assert fns[i] in fns;
    CallerSound(fns, i, t);
  }

  /** One pass over all functions; what it adds is visible to the rest of the pass. */
  method GrowOnce(fns: Program, storeLocked: set<string>) returns (more: set<string>, grew: bool)
    requires Valid(fns) && Sound(fns, storeLocked) && storeLocked <= Names(fns)
    ensures Sound(fns, more) && storeLocked <= more <= Names(fns)
    ensures grew == (more != storeLocked)
    ensures !grew ==> AllSettled(fns, more)
  {
    hide Sound, StoreLocked, CallsTo, IsLockedName;
    more, grew := storeLocked, false;
    for i := 0 to |fns|
      invariant Sound(fns, more) && storeLocked <= more <= Names(fns)
      invariant grew == (more != storeLocked)
      invariant !grew ==> forall j :: 0 <= j < i ==> Settled(fns, more, j)
    {
      var name, body := fns[i].key, fns[i].value.body;
      if name !in more && IsLockedName(name) {
        if exists t :: t in more && CallsTo(body, t) {
          ghost var t :| t in more && CallsTo(body, t);
          OneMore(fns, more, i, t);
          more, grew := more + {name}, true;
        }
      }
    }
  }

  /** The functions that fetch the handle themselves. */
  function Seeds(fns: Program): set<string> {
    set e | e in fns && IsLockedName(e.key) && Fetches(e.value.body) :: e.key
  }

  lemma SeedsEffect(fns: Program)
    requires Valid(fns)
    ensures Sound(fns, Seeds(fns)) && HasSeeds(fns, Seeds(fns)) && Seeds(fns) <= Names(fns)
  {
    hide LockedChain;
    forall f | f in Seeds(fns) ensures StoreLocked(fns, f) {
      var i :| 0 <= i < |fns| && fns[i].key == f && IsLockedName(fns[i].key) && Fetches(fns[i].value.body);
      SeedsSound(fns, i);
    }
  }

  ghost predicate AllSettled(fns: Program, s: set<string>) {
    forall i :: 0 <= i < |fns| ==> Settled(fns, s, i)
  }

  /** A sound, settled set with the seeds is the least fixed point. */
  lemma FixedPoint(fns: Program, s: set<string>)
    requires Valid(fns) && Sound(fns, s) && AllSettled(fns, s) && Seeds(fns) <= s
    ensures forall f :: f in s <==> StoreLocked(fns, f)
  {
    SeedsEffect(fns);
    SeedsKept(fns, Seeds(fns), s);
    forall f | StoreLocked(fns, f) ensures f in s {
      var p :| LockedChain(fns, p) && p[0] == f;
      ChainInside(fns, s, p);
    }
  }

  /** The `while grew` loop; it ends, and what it computes is exactly the store-locked functions. */
  method ComputeStoreLocked(fns: Program) returns (storeLocked: set<string>)
    requires Valid(fns)
    ensures forall f :: f in storeLocked <==> StoreLocked(fns, f)
  {
    hide Sound, StoreLocked, Names, Seeds, Settled, Valid, HasSeeds;
    storeLocked := Seeds(fns);
    SeedsEffect(fns);
    var grew := true;
    while grew
      invariant Sound(fns, storeLocked) && Seeds(fns) <= storeLocked <= Names(fns)
      invariant !grew ==> AllSettled(fns, storeLocked)
      decreases |Names(fns) - storeLocked|, grew
    {
      ghost var before := storeLocked;
      storeLocked, grew := GrowOnce(fns, storeLocked);
      if grew {
        SmallerRest(Names(fns), before, storeLocked);
      }
    }
    FixedPoint(fns, storeLocked);
  }

  lemma SmallerRest<T>(all: set<T>, before: set<T>, after: set<T>)
    requires before < after <= all
    ensures |all - after| < |all - before|
  {
    var x :| x in after && x !in before;
    assert all - after <= (all - before) - {x};
    Subset(all - after, (all - before) - {x});
  }

  lemma {:induction false} Subset<T>(a: set<T>, b: set<T>)
    requires a <= b
    ensures |a| <= |b|
  {
    if a != {} {
      var x :| x in a;
      Subset(a - {x}, b - {x});
    }
  }

  /** Rules 1 and 2 over the lines of one function. */
  method CheckFunction(fns: Program, name: string, body: seq<CodeLine>, storeLocked: set<string>)
    returns (problems: seq<Problem>)
    requires Has(fns, name) && Get(fns, name).value.body == body && Get(fns, name).value.path != STORE
    requires forall f :: f in storeLocked <==> StoreLocked(fns, f)
    ensures forall pr :: pr in problems <==> IsProblem(fns, pr) && pr.fn == name
  {
    hide StoreLocked, IndexOf, IsLockedName;
    var lockedByName := IsLockedName(name);
    var holds := false;
    problems := [];
    for n := 0 to |body|
      invariant holds == exists k :: 0 <= k < n && body[k].lock
      invariant forall pr :: pr in problems <==> IsProblem(fns, pr) && pr.fn == name && pr.line < n
    {
      if body[n].lock { holds := true; }
      assert holds == HoldsAt(body, n);
      if body[n].fetch && !(lockedByName || holds) {
        problems := problems + [Problem(name, n, None)];
      }
      ghost var first := problems;
      for c := 0 to |body[n].calls|
        invariant forall pr :: pr in problems <==>
          pr in first || (IsProblem(fns, pr) && exists j :: 0 <= j < c && pr == Problem(name, n, Some(body[n].calls[j])))
      {
        var callee := body[n].calls[c];
        if callee != name && callee in storeLocked && !(lockedByName || holds) {
          problems := problems + [Problem(name, n, Some(callee))];
        }
      }
    }
  }

  /** Rules 1 and 2 over every function outside the store. */
  method CheckRules(fns: Program, storeLocked: set<string>) returns (problems: seq<Problem>)
    requires Valid(fns) && forall f :: f in storeLocked <==> StoreLocked(fns, f)
    ensures forall pr :: pr in problems <==> IsProblem(fns, pr)
  {
    hide StoreLocked, HoldsAt, IsLockedName;
    problems := [];
    for i := 0 to |fns|
      invariant forall pr :: pr in problems <==> IsProblem(fns, pr) && IndexOf(fns, pr.fn) < i
    {
      EntryLookup(fns, i);
      IndexIs(fns, fns[i].key, i);
      if fns[i].value.path != STORE {
        var found := CheckFunction(fns, fns[i].key, fns[i].value.body, storeLocked);
        problems := problems + found;
      }
    }
  }

  // --------------------------------------------------------------- soundness

  /** A point of execution: a line of a function. */
  datatype Point = Point(fn: string, line: nat)

  /** A call path: each point calls the function of the next, and the last one fetches the handle. */
  ghost predicate FetchPath(fns: Program, p: seq<Point>) {
    && p != [] && Has(fns, p[0].fn) && p[0].line < |Get(fns, p[0].fn).value.body|
    && var line := Get(fns, p[0].fn).value.body[p[0].line];
       if |p| == 1 then line.fetch else p[1].fn in line.calls && FetchPath(fns, p[1..])
  }

  /** Every function that is not `*_locked` lies outside the store module. */
  ghost predicate Outside(fns: Program, p: seq<Point>) {
    forall i :: 0 <= i < |p| && !IsLockedName(p[i].fn) ==> Get(fns, p[i].fn).Some? && Get(fns, p[i].fn).value.path != STORE
  }

  ghost predicate Takes(fns: Program, pt: Point) {
    !IsLockedName(pt.fn) && Has(fns, pt.fn) && HoldsAt(Get(fns, pt.fn).value.body, pt.line)
  }

  /** Some function on the path that is not `*_locked` has the lock call at or before its step. */
  ghost predicate Protected(fns: Program, p: seq<Point>) { exists i :: 0 <= i < |p| && Takes(fns, p[i]) }

  /** Without problems, a path is protected or is a chain of `*_locked` functions. */
  lemma {:induction false} PathProtected(fns: Program, p: seq<Point>)
    requires Valid(fns) && FetchPath(fns, p) && Outside(fns, p)
    requires forall pr :: !IsProblem(fns, pr)
    ensures Protected(fns, p) || (IsLockedName(p[0].fn) && StoreLocked(fns, p[0].fn))
    decreases |p|
  {
    var body := Get(fns, p[0].fn).value.body;
    var i := IndexOf(fns, p[0].fn);
    if |p| == 1 {
      if IsLockedName(p[0].fn) {
        SeedsSound(fns, i);
      } else {
        assert !IsProblem(fns, Problem(p[0].fn, p[0].line, None));
        assert Takes(fns, p[0]);
      }
    } else {
      PathProtected(fns, p[1..]);
      if Protected(fns, p[1..]) {
        var k :| 0 <= k < |p[1..]| && Takes(fns, p[1..][k]);
        assert Takes(fns, p[k + 1]);
      } else if IsLockedName(p[0].fn) {
        CallerSound(fns, i, p[1].fn);
      } else {
        assert !IsProblem(fns, Problem(p[0].fn, p[0].line, Some(p[1].fn)));
        assert Takes(fns, p[0]);
      }
    }
  }

  /** A chain of `*_locked` functions is a call path. */
  lemma {:induction false} ChainToPath(fns: Program, c: seq<string>) returns (p: seq<Point>)
    requires LockedChain(fns, c)
    ensures FetchPath(fns, p) && p[0].fn == c[0] && forall i :: 0 <= i < |p| ==> IsLockedName(p[i].fn)
    decreases |c|
  {
    var body := Get(fns, c[0]).value.body;
    if |c| == 1 {
      var n :| 0 <= n < |body| && body[n].fetch;
      p := [Point(c[0], n)];
    } else {
      var n :| 0 <= n < |body| && c[1] in body[n].calls;
      var rest := ChainToPath(fns, c[1..]);
      p := [Point(c[0], n)] + rest;
      assert p[1..] == rest;
    }
  }

  /** A reported problem is a real path to a fetch on which nobody takes the lock. */
  lemma ProblemPath(fns: Program, pr: Problem)
    requires IsProblem(fns, pr)
    ensures exists p: seq<Point> ::
              FetchPath(fns, p) && Outside(fns, p) && !IsLockedName(p[0].fn) && !Protected(fns, p)
  {
    var p := [Point(pr.fn, pr.line)];
    if pr.callee.Some? {
      var c :| LockedChain(fns, c) && c[0] == pr.callee.value;
      var rest := ChainToPath(fns, c);
      p := p + rest;
      assert p[1..] == rest;
      assert forall i :: 0 < i < |p| ==> p[i] == rest[i - 1];
    }
    assert FetchPath(fns, p) && Outside(fns, p) && !IsLockedName(p[0].fn) && !Protected(fns, p);
  }

  /**
   * The gate is exact. It reports no rule 1 or rule 2 problem if and only if every call path from a function
   * that is not `*_locked` to a handle fetch, with its functions that are not `*_locked` outside the store,
   * has such a function with a lock call textually at or before its step on the path.
   */
  lemma GateExactly(fns: Program)
    requires Valid(fns)
    ensures (forall pr :: !IsProblem(fns, pr))
       <==> forall p: seq<Point> :: FetchPath(fns, p) && Outside(fns, p) && !IsLockedName(p[0].fn) ==> Protected(fns, p)
  {
    if forall pr :: !IsProblem(fns, pr) {
      forall p: seq<Point> | FetchPath(fns, p) && Outside(fns, p) && !IsLockedName(p[0].fn) ensures Protected(fns, p) {
        PathProtected(fns, p);
      }
    } else {
      var pr :| IsProblem(fns, pr);
      ProblemPath(fns, pr);
    }
  }

  // ------------------------------------------------------------ small programs

  predicate CallerLocks(name: string) {
    (|name| >= 7 && name[|name| - 7..] == "_locked") || (|name| >= 9 && name[|name| - 9..] == "_locked_a")
  }

  /** A fetch on a line with no lock call on it or before it. */
  ghost predicate BareFetch(body: seq<CodeLine>) {
    exists n :: 0 <= n < |body| && body[n].fetch && forall k :: 0 <= k <= n ==> !body[k].lock
  }

  ghost predicate BareCall(body: seq<CodeLine>, callee: string) {
    exists n :: 0 <= n < |body| && callee in body[n].calls && forall k :: 0 <= k <= n ==> !body[k].lock
  }

  ghost predicate Clean(fns: Program) { forall pr :: !IsProblem(fns, pr) }

  lemma OnlyChain(name: string, f: Fn, callee: string)
    ensures StoreLocked([Entry(name, f)], callee) ==> callee == name
  {
    if p :| LockedChain([Entry(name, f)], p) && p[0] == callee {
      assert Has([Entry(name, f)], callee);
    }
  }

  lemma BareFetchIsProblem(fns: Program, name: string, n: nat)
    requires Has(fns, name) && Get(fns, name).value.path != STORE && !IsLockedName(name)
    requires n < |Get(fns, name).value.body| && Get(fns, name).value.body[n].fetch
    requires forall k :: 0 <= k <= n ==> !Get(fns, name).value.body[k].lock
    ensures !Clean(fns)
  {
    assert IsProblem(fns, Problem(name, n, None));
  }

  /** A program of one function fails exactly when it lies outside the store, is not named for it, and has a bare fetch. */
  lemma OneFunction(name: string, f: Fn)
    ensures Clean([Entry(name, f)]) <==> f.path == "src/engine/store.cyr" || CallerLocks(name) || !BareFetch(f.body)
  {
    var fns := [Entry(name, f)];
    assert Has(fns, name) && Get(fns, name) == Some(f);
    assert IsLockedName(name) == CallerLocks(name);
    if BareFetch(f.body) && f.path != STORE && !IsLockedName(name) {
      var n :| 0 <= n < |f.body| && f.body[n].fetch && forall k :: 0 <= k <= n ==> !f.body[k].lock;
      BareFetchIsProblem(fns, name, n);
    }
    hide LockedChain, IndexOf, IsLockedName, CallerLocks;
    if pr :| IsProblem(fns, pr) {
      if pr.callee.Some? { OnlyChain(name, f, pr.callee.value); }
      assert f.body[pr.line].fetch;
    }
  }

  /** A caller of a `*_locked` function that fetches fails exactly when it calls it with no lock call on the line or before. */
  lemma CallerOfLocked(name: string, f: Fn, callee: string, g: Fn)
    requires callee != name && !CallerLocks(name) && CallerLocks(callee) && Fetches(g.body)
    requires f.path != "src/engine/store.cyr" && !Fetches(f.body)
    ensures Clean([Entry(name, f), Entry(callee, g)]) <==> !BareCall(f.body, callee)
  {
    var fns := [Entry(name, f), Entry(callee, g)];
    IndexIs(fns, name, 0);
    IndexIs(fns, callee, 1);
    assert Get(fns, name) == Some(f) && Get(fns, callee) == Some(g);
    assert !IsLockedName(name) && IsLockedName(callee);
    assert LockedChain(fns, [callee]);
    assert [callee][0] == callee && StoreLocked(fns, callee);
    if BareCall(f.body, callee) {
      var n :| 0 <= n < |f.body| && callee in f.body[n].calls && forall k :: 0 <= k <= n ==> !f.body[k].lock;
      assert IsProblem(fns, Problem(name, n, Some(callee)));
    }
    if pr :| IsProblem(fns, pr) {
      EitherOne(fns, name, f, callee, g, pr.fn);
      assert pr.fn == name && pr.callee.Some?;
      var p :| LockedChain(fns, p) && p[0] == pr.callee.value;
      EitherOne(fns, name, f, callee, g, p[0]);
    }
  }

  lemma EitherOne(fns: Program, name: string, f: Fn, callee: string, g: Fn, x: string)
    requires fns == [Entry(name, f), Entry(callee, g)] && Has(fns, x)
    ensures x == name || x == callee
  {
  }

  // --------------------------------------------------------- the whole gate

  /** A line of a source file, with whether the raw handle global stands in it. */
  datatype FileLine = FileLine(path: string, raw: bool)

  /** Rule 0: the raw handle is used outside the store. */
  predicate Exposed(line: FileLine) { line.path != STORE && line.raw }

  /** A variable on line n was assigned from a result string on that line or before. */
  predicate Borrowed(body: seq<CodeLine>, n: nat)
    requires n < |body|
  {
    exists k :: 0 <= k <= n && body[k].reading && body[k].target.Some? && body[k].target.value in body[n].words
  }

  /** Rule 3: a result string, or a variable assigned from one, is handed to a call that keeps the pointer. */
  predicate Dangles(body: seq<CodeLine>, n: nat)
    requires n < |body|
  {
    body[n].borrows && (body[n].reading || Borrowed(body, n))
  }

  /** A variable counts from the line it is assigned on. */
  lemma DanglesMeans(body: seq<CodeLine>, n: nat)
    requires n < |body|
    ensures Dangles(body, n)
       <==> && body[n].borrows
            && (body[n].reading
                || exists k, v :: 0 <= k <= n && body[k].reading && body[k].target == Some(v) && v in body[n].words)
  {
    if k, v :| 0 <= k <= n && body[k].reading && body[k].target == Some(v) && v in body[n].words {
      assert Borrowed(body, n);
    }
    if k :| 0 <= k <= n && body[k].reading && body[k].target.Some? && body[k].target.value in body[n].words {
      assert body[k].target == Some(body[k].target.value);
    }
  }

  /** Rule 3 over the lines of one function. */
  method CheckBorrowing(body: seq<CodeLine>) returns (lines: seq<nat>)
    ensures forall n: nat :: n in lines <==> n < |body| && Dangles(body, n)
  {
    var borrowed := {};
    lines := [];
    for n := 0 to |body|
      invariant forall v :: v in borrowed <==> exists k :: 0 <= k < n && body[k].reading && body[k].target == Some(v)
      invariant forall j: nat :: j in lines <==> j < n && Dangles(body, j)
    {
      if body[n].reading && body[n].target.Some? {
        borrowed := borrowed + {body[n].target.value};
      }
      assert (exists v :: v in body[n].words && v in borrowed) <==> Borrowed(body, n);
      if body[n].borrows && (body[n].reading || exists v :: v in body[n].words && v in borrowed) {
        lines := lines + [n];
      }
    }
  }

  /** Every call path to a handle fetch has the lock, as `GateExactly` puts it. */
  ghost predicate AllProtected(fns: Program) {
    forall p: seq<Point> :: FetchPath(fns, p) && Outside(fns, p) && !IsLockedName(p[0].fn) ==> Protected(fns, p)
  }

  ghost predicate NothingDangles(fns: Program) {
    forall i :: 0 <= i < |fns| ==> forall n :: 0 <= n < |fns[i].value.body| ==> !Dangles(fns[i].value.body, n)
  }

  datatype Found = Found(name: string, fn: Fn)

  /** `fns[name] = ...` for every function found, file by file. */
  function Collect(found: seq<Found>): Program {
    if found == [] then []
    else Set(Collect(found[..|found| - 1]), found[|found| - 1].name, found[|found| - 1].fn)
  }

  /** Only the last definition of a name is analysed; an earlier one of the same name is shadowed. */
  lemma {:induction false} CollectKeepsLast(found: seq<Found>, i: nat)
    requires i < |found| && forall j :: i < j < |found| ==> found[j].name != found[i].name
    ensures Valid(Collect(found)) && Get(Collect(found), found[i].name) == Some(found[i].fn)
  {
    var n := |found| - 1;
    CollectValid(found[..n]);
    SetGet(Collect(found[..n]), found[n].name, found[n].fn, found[i].name);
    if i < n {
      CollectKeepsLast(found[..n], i);
    }
  }

  lemma {:induction false} CollectValid(found: seq<Found>)
    ensures Valid(Collect(found))
  {
    if found != [] {
      var n := |found| - 1;
      CollectValid(found[..n]);
      SetGet(Collect(found[..n]), found[n].name, found[n].fn, found[n].name);
    }
  }

  /** Rule 3 over every function, the store's own included. */
  method CheckAllBorrowing(fns: Program) returns (problems: seq<(string, nat)>)
    ensures problems == [] <==> NothingDangles(fns)
  {
    hide Dangles;
    problems := [];
    for i := 0 to |fns|
      invariant problems == [] <==> forall j :: 0 <= j < i ==>
        forall n :: 0 <= n < |fns[j].value.body| ==> !Dangles(fns[j].value.body, n)
    {
      var lines := CheckBorrowing(fns[i].value.body);
      assert lines != [] ==> lines[0] in lines;
      problems := problems + seq(|lines|, k requires 0 <= k < |lines| => (fns[i].key, lines[k]));
    }
  }

  /**
   * `main`: it passes exactly when the raw handle stays in the store, every call path to a fetch is protected,
   * and no result string is borrowed.
   */
  method Gate(files: seq<FileLine>, found: seq<Found>) returns (passes: bool)
    ensures passes <==> && (forall i :: 0 <= i < |files| ==> files[i].path == "src/engine/store.cyr" || !files[i].raw)
                        && AllProtected(Collect(found)) && NothingDangles(Collect(found))
  {
    hide IsProblem, FetchPath, Outside, Protected, StoreLocked, NothingDangles;
    passes := true;
    for i := 0 to |files|
      invariant passes <==> forall j :: 0 <= j < i ==> !Exposed(files[j])
    {
      if files[i].path != STORE && files[i].raw { passes := false; }
    }
    var fns: Program := [];
    for i := 0 to |found|
      invariant fns == Collect(found[..i])
    {
      assert found[..i + 1][..i] == found[..i];
      fns := Set(fns, found[i].name, found[i].fn);
    }
    assert found[..|found|] == found;
    CollectValid(found);
    var storeLocked := ComputeStoreLocked(fns);
    var dangling := CheckAllBorrowing(fns);
    var problems := CheckRules(fns, storeLocked);
    GateExactly(fns);
    assert problems != [] ==> problems[0] in problems;
    passes := passes && dangling == [] && problems == [];
  }
}

/**
 * agents/crew_assembler.py: matching a role to a known agent, and the de-duplication of agent keys.
 *
 * `normalize` and `words` are the script's `_normalize` and its split into words.
 */
module CrewAssembler {
  import opened Collections
  import opened Decimal
  import opened AgentKeys

  // ---------------------------------------------------------- role matching

  const MIN_FUZZY_SCORE := 2

  /** The texts of a known agent that take part in matching; the key may be absent. */
  datatype Agent = Agent(agentKey: Option<string>, name: string, role: string)

  datatype Matcher = Matcher(normalize: string -> string, words: string -> set<string>)
  {
    predicate Exact(role: string, a: Agent) {
      || normalize(OrElse(a.agentKey, "")) == normalize(role)
      || normalize(a.name) == normalize(role)
      || normalize(a.role) == normalize(role)
    }

    function Score(role: string, a: Agent): nat {
      |words(normalize(role)) * (words(normalize(a.name)) + words(normalize(a.role)))|
    }
  }

  /** The role is the key, the name or the role of the agent, but for what normalization evens out. */
  ghost predicate SameText(m: Matcher, role: string, a: Agent) {
    exists text :: text in TextsOf(a) && m.normalize(text) == m.normalize(role)
  }

  function TextsOf(a: Agent): set<string> { {if a.agentKey == None then "" else a.agentKey.value, a.name, a.role} }

  /** The words of the role that are in the name or in the role of the agent. */
  function SharedWords(m: Matcher, role: string, a: Agent): set<string> {
    set w | w in m.words(m.normalize(role)) && (w in m.words(m.normalize(a.name)) || w in m.words(m.normalize(a.role)))
  }

  lemma MatchMeans(m: Matcher, role: string, a: Agent)
    ensures m.Exact(role, a) <==> SameText(m, role, a)
    ensures m.Score(role, a) == |SharedWords(m, role, a)|
  {
    assert a.name in TextsOf(a) && a.role in TextsOf(a) && (if a.agentKey == None then "" else a.agentKey.value) in TextsOf(a);
    assert SharedWords(m, role, a)
        == m.words(m.normalize(role)) * (m.words(m.normalize(a.name)) + m.words(m.normalize(a.role)));
  }

  /** The agent the role should get: the first exact match; failing that, the first of the best overlaps of two words or more. */
  ghost predicate IsBestMatch(m: Matcher, role: string, known: seq<Agent>, best: int) {
    if exists i :: 0 <= i < |known| && SameText(m, role, known[i]) then
      0 <= best < |known| && SameText(m, role, known[best]) && forall i :: 0 <= i < best ==> !SameText(m, role, known[i])
    else if exists i :: 0 <= i < |known| && |SharedWords(m, role, known[i])| >= 2 then
      && 0 <= best < |known|
      && (forall i :: 0 <= i < |known| ==> |SharedWords(m, role, known[i])| <= |SharedWords(m, role, known[best])|)
      && (forall i :: 0 <= i < best ==> |SharedWords(m, role, known[i])| < |SharedWords(m, role, known[best])|)
    else best == -1
  }

  /** The same in terms of the loop. */
  ghost predicate IsBestByScore(m: Matcher, role: string, known: seq<Agent>, best: int) {
    if exists i :: 0 <= i < |known| && m.Exact(role, known[i]) then
      0 <= best < |known| && m.Exact(role, known[best]) && forall i :: 0 <= i < best ==> !m.Exact(role, known[i])
    else if exists i :: 0 <= i < |known| && m.Score(role, known[i]) >= MIN_FUZZY_SCORE then
      && 0 <= best < |known|
      && (forall i :: 0 <= i < |known| ==> m.Score(role, known[i]) <= m.Score(role, known[best]))
      && (forall i :: 0 <= i < best ==> m.Score(role, known[i]) < m.Score(role, known[best]))
    else best == -1
  }

  lemma SameBest(m: Matcher, role: string, known: seq<Agent>, best: int)
    requires IsBestByScore(m, role, known, best)
    ensures IsBestMatch(m, role, known, best)
  {
    forall i | 0 <= i < |known|
      ensures m.Exact(role, known[i]) <==> SameText(m, role, known[i])
      ensures m.Score(role, known[i]) == |SharedWords(m, role, known[i])|
    {
      MatchMeans(m, role, known[i]);
    }
    hide SameText, SharedWords;
  }

  lemma BestMatchUnique(m: Matcher, role: string, known: seq<Agent>, a: int, b: int)
    requires IsBestMatch(m, role, known, a) && IsBestMatch(m, role, known, b)
    ensures a == b
  {
  }

  method BestByScore(m: Matcher, role: string, known: seq<Agent>) returns (best: int)
    ensures IsBestByScore(m, role, known, best)
  {
    var bestMatch, bestScore := -1, 0;
    for i := 0 to |known|
      invariant forall j :: 0 <= j < i ==> !m.Exact(role, known[j]) && m.Score(role, known[j]) <= bestScore
      invariant if bestMatch == -1 then bestScore == 0
                else 0 <= bestMatch < i && m.Score(role, known[bestMatch]) == bestScore
      invariant bestMatch >= 0 ==> forall j :: 0 <= j < bestMatch ==> m.Score(role, known[j]) < bestScore
    {
      if m.Exact(role, known[i]) { return i; }
      var overlap := m.Score(role, known[i]);
      if overlap > bestScore { bestMatch, bestScore := i, overlap; }
    }
    return if bestScore >= MIN_FUZZY_SCORE then bestMatch else -1;
  }

  method FindBestMatch(m: Matcher, role: string, known: seq<Agent>) returns (best: int)
    ensures IsBestMatch(m, role, known, best)
  {
    best := BestByScore(m, role, known);
    SameBest(m, role, known, best);
  }

  // ------------------------------------------------------- unique agent keys

  /** The base key of every member; `None` for a member whose role is blank, which is skipped. */
  type Bases = seq<Option<string>>

  function Suffixed(base: string, i: nat): string { base + "-" + Print(i) }

  /** The key member i gets: its base key, or that with the member's number if the base is in use. */
  function KeyOf(bases: Bases, i: nat): string
    requires i < |bases| && bases[i].Some?
    decreases i, 1
  {
    if bases[i].value in Used(bases, i) then Suffixed(bases[i].value, i) else bases[i].value
  }

  /** The keys in use after the first n members. */
  function Used(bases: Bases, n: nat): set<string>
    requires n <= |bases|
    decreases n, 0
  {
    if n == 0 then {} else Used(bases, n - 1) + if bases[n - 1].Some? then {KeyOf(bases, n - 1)} else {}
  }

  function Emitted(bases: Bases, n: nat): seq<string>
    requires n <= |bases|
  {
    if n == 0 then []
    else Emitted(bases, n - 1) + if bases[n - 1].Some? then [KeyOf(bases, n - 1)] else []
  }

  function BaseOf(role: string, known: seq<Agent>, best: int, lower: string -> string, space: char -> bool): string {
    if 0 <= best < |known| then OrElse(known[best].agentKey, MakeAgentKey(role, lower, space))
    else MakeAgentKey(role, lower, space)
  }

  /** The base key the role of a member leads to. */
  ghost predicate IsBase(m: Matcher, role: string, known: seq<Agent>, lower: string -> string, space: char -> bool,
                         base: Option<string>)
  {
    if role == "" then base == None
    else exists best ::
      && IsBestMatch(m, role, known, best)
      && (0 <= best < |known| && known[best].agentKey.Some? ==> base == known[best].agentKey)
      && (best == -1 || (0 <= best < |known| && known[best].agentKey.None?) ==> base == Some(MakeAgentKey(role, lower, space)))
  }

  method BaseKey(m: Matcher, role: string, known: seq<Agent>, lower: string -> string, space: char -> bool)
    returns (base: Option<string>)
    ensures IsBase(m, role, known, lower, space, base) && (base == None <==> role == "")
  {
    if role == "" { return None; }
    var best := FindBestMatch(m, role, known);
    hide SameText, SharedWords;
    return Some(BaseOf(role, known, best, lower, space));
  }

  /** The key part of `assemble_team`: the roles of the members, already stripped, in; the agent keys out. */
  method AssembleTeam(m: Matcher, roles: seq<string>, known: seq<Agent>, lower: string -> string, space: char -> bool)
    returns (keys: seq<string>, bases: Bases)
    ensures |bases| == |roles| && keys == Emitted(bases, |bases|)
    ensures forall i :: 0 <= i < |roles| ==> IsBase(m, roles[i], known, lower, space, bases[i])
    ensures (forall i :: 0 <= i < |roles| && bases[i].Some? ==> !Collides(bases, i)) <==> NoRepeats(keys)
  {
    hide IsBase, Suffixed, Collides, NoRepeats;
    keys, bases := [], [];
    var usedKeys := {};
    for i := 0 to |roles|
      invariant |bases| == i && keys == Emitted(bases, i) && usedKeys == Used(bases, i)
      invariant forall j :: 0 <= j < i ==> IsBase(m, roles[j], known, lower, space, bases[j])
    {
      var base := BaseKey(m, roles[i], known, lower, space);
      PrefixDecides(bases, bases + [base], i);
      bases := bases + [base];
      if base.Some? {
        var key := if base.value in usedKeys then Suffixed(base.value, i) else base.value;
        usedKeys := usedKeys + {key};
        keys := keys + [key];
      }
    }
    KeysDistinctExactly(bases);
    EmittedDistinct(bases, |bases|);
  }

  /** Keys depend on the earlier members only. */
  lemma {:induction false} PrefixDecides(a: Bases, b: Bases, n: nat)
    requires n <= |a| <= |b| && forall i :: 0 <= i < n ==> a[i] == b[i]
    ensures Used(a, n) == Used(b, n) && Emitted(a, n) == Emitted(b, n)
  {
    if n > 0 {
      PrefixDecides(a, b, n - 1);
    }
  }

  // ------------------------------------------------------- when keys collide

  /** Whether the base key of member i is in use when its turn comes, told from the base keys alone. */
  predicate Taken(bases: Bases, i: nat)
    requires i < |bases| && bases[i].Some?
    decreases i
  {
    exists j :: 0 <= j < i && bases[j].Some? &&
      (bases[j] == bases[i] || (Taken(bases, j) && Suffixed(bases[j].value, j) == bases[i].value))
  }

  /** A member whose base key is in use, while its numbered key is the base key of an earlier member. */
  predicate Collides(bases: Bases, i: nat)
    requires i < |bases| && bases[i].Some?
  {
    Taken(bases, i) && exists j :: 0 <= j < i && bases[j] == Some(Suffixed(bases[i].value, i))
  }

  ghost predicate DistinctKeys(bases: Bases) {
    forall i, j :: 0 <= i < j < |bases| && bases[i].Some? && bases[j].Some? ==> KeyOf(bases, i) != KeyOf(bases, j)
  }

  lemma {:induction false} UsedMeans(bases: Bases, n: nat, key: string)
    requires n <= |bases|
    ensures key in Used(bases, n) <==> exists i :: 0 <= i < n && bases[i].Some? && KeyOf(bases, i) == key
  {
    if n > 0 { UsedMeans(bases, n - 1, key); }
  }

  /** A member whose base key an earlier member has got is numbered by its position; any other keeps its base key. */
  lemma NumberedExactly(bases: Bases, i: nat)
    requires i < |bases| && bases[i].Some?
    ensures (exists j :: 0 <= j < i && bases[j].Some? && KeyOf(bases, j) == bases[i].value)
            ==> KeyOf(bases, i) == bases[i].value + "-" + Print(i)
    ensures (forall j :: 0 <= j < i && bases[j].Some? ==> KeyOf(bases, j) != bases[i].value)
            ==> KeyOf(bases, i) == bases[i].value
  {
    UsedMeans(bases, i, bases[i].value);
  }

  /** The base key of an earlier member is in use by now, by that member or by one before it. */
  lemma BaseIsUsed(bases: Bases, j: nat, i: nat)
    requires j < i <= |bases| && bases[j].Some?
    ensures bases[j].value in Used(bases, i)
  {
    UsedMeans(bases, i, bases[j].value);
    if bases[j].value in Used(bases, j) {
      UsedMeans(bases, j, bases[j].value);
    } else {
      assert KeyOf(bases, j) == bases[j].value;
    }
  }

  lemma {:induction false} TakenMeansUsed(bases: Bases, i: nat)
    requires i < |bases| && bases[i].Some?
    ensures Taken(bases, i) <==> bases[i].value in Used(bases, i)
    decreases i
  {
    var base := bases[i].value;
    UsedMeans(bases, i, base);
    if Taken(bases, i) {
      var j :| 0 <= j < i && bases[j].Some? &&
        (bases[j] == bases[i] || (Taken(bases, j) && Suffixed(bases[j].value, j) == base));
      if bases[j] == bases[i] {
        BaseIsUsed(bases, j, i);
      } else {
        TakenMeansUsed(bases, j);
        assert KeyOf(bases, j) == base;
      }
    }
    if base in Used(bases, i) {
      var j :| 0 <= j < i && bases[j].Some? && KeyOf(bases, j) == base;
      TakenMeansUsed(bases, j);
    }
  }

  lemma NoDashInDigits(s: string)
    requires AllDigits(s)
    ensures '-' !in s
  {
  }

  function LastDash(s: string): int {
    if s == [] then -1 else if s[|s| - 1] == '-' then |s| - 1 else LastDash(s[..|s| - 1])
  }

  lemma {:induction false} LastDashOf(a: string, digits: string)
    requires '-' !in digits
    ensures LastDash(a + "-" + digits) == |a|
  {
    var s := a + "-" + digits;
    if digits != [] {
      assert digits[|digits| - 1] in digits;
      LastDashOf(a, digits[..|digits| - 1]);
      assert s[..|s| - 1] == a + "-" + digits[..|digits| - 1];
    }
  }

  /** A numbered key determines its number: the last dash divides it. */
  lemma SuffixedInjective(a: string, i: nat, b: string, j: nat)
    requires Suffixed(a, i) == Suffixed(b, j)
    ensures a == b && i == j
  {
    var s := Suffixed(a, i);
    NoDashInDigits(Print(i));
    NoDashInDigits(Print(j));
    LastDashOf(a, Print(i));
    LastDashOf(b, Print(j));
    assert |a| == |b|;
    assert a == s[..|a|] == b;
    assert Print(i) == s[|a| + 1..] == Print(j);
    PrintInjective(i, j);
  }

  /** A key already in use is emitted again exactly when the member's number leads to an earlier base key. */
  lemma RepeatMeansCollision(bases: Bases, i: nat, j: nat)
    requires i < j < |bases| && bases[i].Some? && bases[j].Some? && KeyOf(bases, i) == KeyOf(bases, j)
    ensures Collides(bases, j)
  {
    TakenMeansUsed(bases, j);
    TakenMeansUsed(bases, i);
    UsedMeans(bases, j, KeyOf(bases, i));
    if Taken(bases, i) {
      SuffixedInjective(bases[i].value, i, bases[j].value, j);
    }
  }

  /**
   * All keys are distinct exactly when no member collides: its base key is in use already and its numbered
   * key is the base key of an earlier member.
   */
  lemma KeysDistinctExactly(bases: Bases)
    ensures DistinctKeys(bases) <==> forall i :: 0 <= i < |bases| && bases[i].Some? ==> !Collides(bases, i)
  {
    if forall i :: 0 <= i < |bases| && bases[i].Some? ==> !Collides(bases, i) {
      forall i, j | 0 <= i < j < |bases| && bases[i].Some? && bases[j].Some?
        ensures KeyOf(bases, i) != KeyOf(bases, j)
      {
        if KeyOf(bases, i) == KeyOf(bases, j) {
          RepeatMeansCollision(bases, i, j);
        }
      }
    } else {
      var i :| 0 <= i < |bases| && bases[i].Some? && Collides(bases, i);
      var j :| 0 <= j < i && bases[j] == Some(Suffixed(bases[i].value, i));
      TakenMeansUsed(bases, i);
      BaseIsUsed(bases, j, i);
      UsedMeans(bases, i, bases[j].value);
      var k :| 0 <= k < i && bases[k].Some? && KeyOf(bases, k) == bases[j].value;
      assert KeyOf(bases, i) == KeyOf(bases, k);
    }
  }

  ghost predicate NoRepeats(keys: seq<string>) {
    forall i, j :: 0 <= i < j < |keys| ==> keys[i] != keys[j]
  }

  lemma {:induction false} EmittedIsUsed(bases: Bases, n: nat)
    requires n <= |bases|
    ensures forall key :: key in Emitted(bases, n) <==> key in Used(bases, n)
  {
    if n > 0 { EmittedIsUsed(bases, n - 1); }
  }

  ghost predicate DistinctUpTo(bases: Bases, n: nat)
    requires n <= |bases|
  {
    forall i, j :: 0 <= i < j < n && bases[i].Some? && bases[j].Some? ==> KeyOf(bases, i) != KeyOf(bases, j)
  }

  lemma DistinctSnoc(bases: Bases, n: nat)
    requires n < |bases| && bases[n].Some?
    ensures DistinctUpTo(bases, n + 1) <==> DistinctUpTo(bases, n) && KeyOf(bases, n) !in Used(bases, n)
  {
    UsedMeans(bases, n, KeyOf(bases, n));
    if DistinctUpTo(bases, n) && KeyOf(bases, n) !in Used(bases, n) {
      forall i, j | 0 <= i < j < n + 1 && bases[i].Some? && bases[j].Some? ensures KeyOf(bases, i) != KeyOf(bases, j) { }
    }
    if KeyOf(bases, n) in Used(bases, n) {
      var k :| 0 <= k < n && bases[k].Some? && KeyOf(bases, k) == KeyOf(bases, n);
    }
  }

  /** The returned list repeats no key exactly when the members' keys are distinct. */
  lemma {:induction false} EmittedDistinct(bases: Bases, n: nat)
    requires n <= |bases|
    ensures NoRepeats(Emitted(bases, n)) <==> DistinctUpTo(bases, n)
  {
    if n > 0 {
      EmittedDistinct(bases, n - 1);
      if bases[n - 1].Some? {
        var shorter, key := Emitted(bases, n - 1), KeyOf(bases, n - 1);
        EmittedIsUsed(bases, n - 1);
        DistinctSnoc(bases, n - 1);
        assert Emitted(bases, n) == shorter + [key];
        RepeatsSnoc(shorter, key);
      } else {
        assert Emitted(bases, n) == Emitted(bases, n - 1);
      }
    }
  }

  lemma RepeatsSnoc(keys: seq<string>, key: string)
    ensures NoRepeats(keys + [key]) <==> NoRepeats(keys) && key !in keys
  {
    var longer := keys + [key];
    assert longer[|keys|] == key && forall i :: 0 <= i < |keys| ==> longer[i] == keys[i];
  }

  ghost predicate EndsInNumber(s: string) {
    exists k :: 0 <= k < |s| - 1 && s[k] == '-' && AllDigits(s[k + 1..])
  }

  /** If no base key ends in a dash and a number, all keys are distinct. */
  lemma PlainBasesDistinct(bases: Bases)
    requires forall i :: 0 <= i < |bases| && bases[i].Some? ==> !EndsInNumber(bases[i].value)
    ensures DistinctKeys(bases)
  {
    forall i | 0 <= i < |bases| && bases[i].Some? ensures !Collides(bases, i) {
      forall j | 0 <= j < i && bases[j].Some? ensures bases[j].value != Suffixed(bases[i].value, i) {
        var s := Suffixed(bases[i].value, i);
        var k := |bases[i].value|;
        assert s[k] == '-' && s[k + 1..] == Print(i);
        assert EndsInNumber(s);
      }
    }
    KeysDistinctExactly(bases);
  }

  /** The collision the condition excludes: a third member's numbered key is the first member's own. */
  lemma NumberedBaseCollides()
    ensures var bases := [Some("dev-2"), Some("dev"), Some("dev")];
            KeyOf(bases, 0) == KeyOf(bases, 2) == "dev-2" && !DistinctKeys(bases)
  {
    var bases := [Some("dev-2"), Some("dev"), Some("dev")];
    assert Print(2) == "2";
    assert Used(bases, 0) == {};
    assert KeyOf(bases, 0) == "dev-2";
    assert Used(bases, 1) == {"dev-2"};
    assert "dev" != "dev-2" by { assert |"dev"| == 3 && |"dev-2"| == 5; }
    assert KeyOf(bases, 1) == "dev";
    assert Used(bases, 2) == {"dev-2", "dev"};
    assert KeyOf(bases, 2) == Suffixed("dev", 2) == "dev" + "-" + "2" == "dev-2";
  }

  /** Numbering a valid key gives a valid key. */
  lemma EmittedKeysValid(bases: Bases, i: nat)
    requires i < |bases| && bases[i].Some? && IsKey(bases[i].value)
    ensures IsKey(KeyOf(bases, i)) && Accepted(KeyOf(bases, i))
  {
    var key := KeyOf(bases, i);
    forall c | c in key ensures IsKeyChar(c) || c == '-' {
      if c in Print(i) { assert IsDigit(c); }
    }
  }
}

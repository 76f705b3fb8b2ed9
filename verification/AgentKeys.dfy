/**
 * agents/constants.py: make_agent_key and validate_agent_key. Lower-casing and the test for white space are
 * parameters, so nothing is assumed about letters outside a-z.
 */
module AgentKeys {
  import opened Decimal

  predicate IsKeyChar(c: char) { 'a' <= c <= 'z' || IsDigit(c) }

  function StripFront(s: string, p: char -> bool): (r: string)
    ensures |r| <= |s| && r == s[|s| - |r|..]
    ensures r != [] ==> !p(r[0])
    ensures forall i :: 0 <= i < |s| - |r| ==> p(s[i])
  {
    if s != [] && p(s[0]) then StripFront(s[1..], p) else s
  }

  function StripBack(s: string, p: char -> bool): (r: string)
    ensures |r| <= |s| && r == s[..|r|]
    ensures r != [] ==> !p(r[|r| - 1])
    ensures forall i :: |r| <= i < |s| ==> p(s[i])
  {
    if s != [] && p(s[|s| - 1]) then StripBack(s[..|s| - 1], p) else s
  }

  /** `str.strip` for the characters of p. */
  function Strip(s: string, p: char -> bool): string { StripBack(StripFront(s, p), p) }

  /** `re.sub("[^a-z0-9]+", "-", s)`; `inRun` when the run at the front has its dash already. */
  function Collapse(s: string, inRun: bool): string {
    if s == [] then []
    else if IsKeyChar(s[0]) then [s[0]] + Collapse(s[1..], false)
    else (if inRun then [] else ['-']) + Collapse(s[1..], true)
  }

  function Dash(): char -> bool { c => c == '-' }

  function KeyText(lowered: string, space: char -> bool): string {
    Strip(Collapse(Strip(lowered, space), false), Dash())
  }

  function MakeAgentKey(role: string, lower: string -> string, space: char -> bool): string {
    if KeyText(lower(role), space) == "" then "agent" else KeyText(lower(role), space)
  }

  /** `[a-z0-9][a-z0-9-]*` */
  predicate IsKey(s: string) {
    s != [] && IsKeyChar(s[0]) && forall c :: c in s ==> IsKeyChar(c) || c == '-'
  }

  /** A lower-case letter or a digit, by its ASCII code. */
  predicate LetterOrDigit(c: char) { 97 <= c as int <= 122 || 48 <= c as int <= 57 }

  /** A key: lower-case letters, digits and dashes, the first of them no dash. */
  lemma KeyMeans(s: string)
    ensures IsKey(s) <==> |s| > 0 && s[0] != '-' && forall i :: 0 <= i < |s| ==> s[i] == '-' || LetterOrDigit(s[i])
  {
    assert !IsKeyChar('-') && forall c: char :: IsKeyChar(c) <==> LetterOrDigit(c);
  }

  /** What `validate_agent_key` accepts: the `$` of its pattern also matches before a final newline. */
  predicate Accepted(s: string) {
    IsKey(s) || (s != [] && s[|s| - 1] == '\n' && IsKey(s[..|s| - 1]))
  }

  // ------------------------------------------------------------- reference

  function Flush(word: string): seq<string> { if word == "" then [] else [word] }

  /** The maximal runs of key characters, in order; `word` is the run so far. */
  function Words(s: string, word: string): seq<string> {
    if s == [] then Flush(word)
    else if IsKeyChar(s[0]) then Words(s[1..], word + [s[0]])
    else Flush(word) + Words(s[1..], "")
  }

  function Join(words: seq<string>): string {
    if words == [] then "" else if |words| == 1 then words[0] else words[0] + "-" + Join(words[1..])
  }

  /** Key characters and dashes, never two dashes in a row. */
  ghost predicate Tidy(s: string) {
    && (forall c :: c in s ==> IsKeyChar(c) || c == '-')
    && (forall i, j :: 0 <= i < |s| && j == i + 1 < |s| ==> s[i] != '-' || s[j] != '-')
  }

  /** A key in normal form: tidy, with no dash at either end. */
  ghost predicate Normal(s: string) {
    Tidy(s) && s != [] && s[0] != '-' && s[|s| - 1] != '-'
  }

  // ---------------------------------------------------------------- lemmas

  lemma {:induction false} CollapseShape(s: string, inRun: bool)
    ensures var r := Collapse(s, inRun);
            Tidy(r) && (inRun && r != [] ==> r[0] != '-')
  {
    if s != [] {
      CollapseShape(s[1..], !IsKeyChar(s[0]));
    }
  }

  lemma {:induction false} CollapseWords(s: string, inRun: bool, word: string)
    requires inRun ==> word == ""
    ensures Words(Collapse(s, inRun), word) == Words(s, word)
  {
    if s != [] {
      var r := Collapse(s, inRun);
      if IsKeyChar(s[0]) {
        CollapseWords(s[1..], false, word + [s[0]]);
        assert r[1..] == Collapse(s[1..], false);
      } else {
        CollapseWords(s[1..], true, "");
        if inRun {
          assert r == Collapse(s[1..], true);
          assert Flush("") + Words(s[1..], "") == Words(s[1..], "");
        } else {
          assert r[1..] == Collapse(s[1..], true);
        }
      }
    }
  }

  lemma {:induction false} FrontWords(s: string, k: nat)
    requires k <= |s| && forall i :: 0 <= i < k ==> !IsKeyChar(s[i])
    ensures Words(s[k..], "") == Words(s, "")
  {
    if k > 0 {
      FrontWords(s[1..], k - 1);
      assert s[1..][k - 1..] == s[k..];
      assert Flush("") + Words(s[1..], "") == Words(s[1..], "");
    }
  }

  lemma {:induction false} BackWords(s: string, k: nat, word: string)
    requires k <= |s| && forall i :: k <= i < |s| ==> !IsKeyChar(s[i])
    ensures Words(s[..k], word) == Words(s, word)
  {
    if k > 0 {
      assert s[..k][1..] == s[1..][..k - 1];
      BackWords(s[1..], k - 1, if IsKeyChar(s[0]) then word + [s[0]] else "");
    } else if s != [] {
      BackWords(s[1..], 0, "");
      assert s[1..][..0] == s[..0];
    }
  }

  /** Stripping characters that are no key characters keeps the words. */
  lemma StripWords(s: string, p: char -> bool)
    requires forall c :: p(c) ==> !IsKeyChar(c)
    ensures Words(Strip(s, p), "") == Words(s, "")
  {
    var front := StripFront(s, p);
    FrontWords(s, |s| - |front|);
    BackWords(front, |StripBack(front, p)|, "");
  }

  lemma JoinCons(w: string, ws: seq<string>)
    requires ws != []
    ensures Join([w] + ws) == w + "-" + Join(ws)
  {
    assert ([w] + ws)[1..] == ws;
  }

  lemma TidyTail(s: string)
    requires Tidy(s) && s != []
    ensures Tidy(s[1..]) && (s[0] != '-' ==> IsKeyChar(s[0]))
    ensures s[0] == '-' && |s| > 1 ==> s[1] != '-'
  {
    assert s[0] in s;
  }

  lemma WordsAtDash(s: string, word: string)
    requires s != [] && s[0] == '-'
    ensures Words(s, word) == Flush(word) + Words(s[1..], "")
  {
  }

  lemma WordsAtLetter(s: string, word: string)
    requires s != [] && IsKeyChar(s[0])
    ensures Words(s, word) == Words(s[1..], word + [s[0]])
  {
  }

  lemma NoWords(word: string)
    ensures Words("", word) == Flush(word) && Join(Flush(word)) == word
  {
  }

  /** What the induction needs of the string behind the first character. */
  ghost predicate Proper(s: string, word: string) {
    Tidy(s) && (s != [] ==> s[|s| - 1] != '-' && (word == "" ==> s[0] != '-'))
  }

  lemma ProperTail(s: string, word: string)
    requires Proper(s, word) && s != []
    ensures if s[0] == '-' then Proper(s[1..], "") && s[1..] != [] && word != ""
            else IsKeyChar(s[0]) && Proper(s[1..], word + [s[0]])
  {
    TidyTail(s);
  }

  /** A tidy string without dashes at its ends is its words joined by dashes. */
  lemma {:induction false} NormalIsJoined(s: string, word: string)
    requires Proper(s, word)
    ensures Join(Words(s, word)) == word + s
    ensures word + s != "" ==> Words(s, word) != []
  {
    hide Join, Words, Proper;
    if s == [] {
      NoWords(word);
      assert word + s == word;
    } else if s[0] == '-' {
      ProperTail(s, word);
      NormalIsJoined(s[1..], "");
      WordsAtDash(s, word);
      assert "" + s[1..] == s[1..];
      JoinCons(word, Words(s[1..], ""));
      assert word + s == word + "-" + s[1..];
    } else {
      ProperTail(s, word);
      NormalIsJoined(s[1..], word + [s[0]]);
      WordsAtLetter(s, word);
      assert word + [s[0]] + s[1..] == word + s;
    }
  }

  /** Stripping leaves a slice without the stripped characters at its ends. */
  lemma StripSlice(s: string, p: char -> bool) returns (k: nat)
    ensures var r := Strip(s, p);
            && (r != [] ==> !p(r[0]) && !p(r[|r| - 1]))
            && k + |r| <= |s| && r == s[k..k + |r|]
  {
    var front := StripFront(s, p);
    var r := Strip(s, p);
    k := |s| - |front|;
    assert r == front[..|r|] && front == s[k..];
    assert s[k..][..|r|] == s[k..k + |r|];
    assert r != [] ==> r[0] == front[0];
  }

  lemma TidySlice(s: string, i: nat, j: nat)
    requires Tidy(s) && i <= j <= |s|
    ensures Tidy(s[i..j])
  {
  }

  lemma KeyTextWords(lowered: string, space: char -> bool)
    requires forall c :: space(c) ==> !IsKeyChar(c)
    ensures Words(KeyText(lowered, space), "") == Words(lowered, "")
  {
    hide Words, Strip, Collapse;
    var t := Strip(lowered, space);
    StripWords(lowered, space);
    CollapseWords(t, false, "");
    StripWords(Collapse(t, false), Dash());
  }

  lemma KeyTextNormal(lowered: string, space: char -> bool)
    ensures KeyText(lowered, space) == "" || Normal(KeyText(lowered, space))
  {
    hide Strip, Collapse, Tidy;
    var c := Collapse(Strip(lowered, space), false);
    var key := KeyText(lowered, space);
    CollapseShape(Strip(lowered, space), false);
    var k := StripSlice(c, Dash());
    TidySlice(c, k, k + |key|);
  }

  lemma AgentIsNormal()
    ensures Normal("agent") && Words("", "") == []
  {
  }

  /** Lower-case letters and digits, with single dashes between them only. */
  lemma KeyIsNormal(role: string, lower: string -> string, space: char -> bool)
    ensures Normal(MakeAgentKey(role, lower, space))
  {
    hide KeyText;
    KeyTextNormal(lower(role), space);
    AgentIsNormal();
  }

  /** The key is the words of the lower-cased role joined by dashes, or "agent" if it has none. */
  lemma KeyIsJoinedWords(role: string, lower: string -> string, space: char -> bool)
    requires forall c :: space(c) ==> !IsKeyChar(c)
    ensures var words := Words(lower(role), "");
            MakeAgentKey(role, lower, space) == if words == [] then "agent" else Join(words)
  {
    hide Words, Join, KeyText, Tidy;
    var key := KeyText(lower(role), space);
    KeyTextWords(lower(role), space);
    KeyTextNormal(lower(role), space);
    AgentIsNormal();
    if key != "" {
      NormalIsJoined(key, "");
      assert "" + key == key;
    }
  }

  lemma NormalIsKey(s: string)
    requires Normal(s)
    ensures IsKey(s)
  {
    assert s[0] in s;
  }

  /** Every generated key passes validation, whatever the role. */
  lemma GeneratedKeysAccepted(role: string, lower: string -> string, space: char -> bool)
    ensures Accepted(MakeAgentKey(role, lower, space))
  {
    KeyIsNormal(role, lower, space);
    NormalIsKey(MakeAgentKey(role, lower, space));
  }

  /** Validation also accepts a key with one newline behind it, and nothing else but keys. */
  lemma AcceptedExactly(s: string)
    ensures Accepted(s) && !IsKey(s) <==> exists k :: IsKey(k) && s == k + "\n"
    ensures Accepted("agent\n") && !IsKey("agent\n")
  {
    if Accepted(s) && !IsKey(s) {
      assert s == s[..|s| - 1] + "\n";
    }
    if k :| IsKey(k) && s == k + "\n" {
      assert s[..|s| - 1] == k && '\n' in s;
    }
    assert "agent\n"[..5] == "agent" && '\n' in "agent\n";
  }

  /** A key in normal form is its own key, so generating twice changes nothing. */
  lemma Idempotent(role: string, lower: string -> string, space: char -> bool)
    requires forall c :: space(c) ==> !IsKeyChar(c)
    requires forall s :: (forall c :: c in s ==> IsKeyChar(c) || c == '-') ==> lower(s) == s
    ensures MakeAgentKey(MakeAgentKey(role, lower, space), lower, space) == MakeAgentKey(role, lower, space)
  {
    hide Words, Join, MakeAgentKey;
    var key := MakeAgentKey(role, lower, space);
    KeyIsNormal(role, lower, space);
    assert lower(key) == key;
    KeyIsJoinedWords(key, lower, space);
    NormalIsJoined(key, "");
    assert "" + key == key;
  }
}

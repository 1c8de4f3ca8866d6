/**
 * Building the message of a program-options error: a template with
 * `%name%` placeholders, a sorted map of substitutions (the option name,
 * the token the user typed, the offending value, ...) and a sorted map of
 * defaults that rewrite a phrase of the template when its parameter is
 * missing or empty.
 *
 * std::map is modelled as an association list kept sorted by key, so that
 * iterating it visits the keys in the same order as the map does.
 */
module OptionErrors {
  import opened Wrappers
  import opened ValueSemantic

  // ---------------------------------------------------------------------
  // Keys in std::string order

  /** std::string's `<`: lexicographic by character. */
  predicate StrLess(a: string, b: string)
    decreases |a|
  {
    |b| > 0 && (|a| == 0 || a[0] < b[0] || (a[0] == b[0] && StrLess(a[1..], b[1..])))
  }

  lemma {:induction false} StrLessIrreflexive(a: string)
    ensures !StrLess(a, a)
    decreases |a|
  {
    if |a| > 0 {
      StrLessIrreflexive(a[1..]);
    }
  }

  lemma {:induction false} StrLessTransitive(a: string, b: string, c: string)
    requires StrLess(a, b) && StrLess(b, c)
    ensures StrLess(a, c)
    decreases |a|
  {
    if |a| > 0 && a[0] == b[0] && b[0] == c[0] {
      StrLessTransitive(a[1..], b[1..], c[1..]);
    }
  }

  lemma {:induction false} StrLessTotal(a: string, b: string)
    requires a != b
    ensures StrLess(a, b) || StrLess(b, a)
    decreases |a|
  {
    if |a| > 0 && |b| > 0 && a[0] == b[0] {
      assert a == [a[0]] + a[1..] && b == [b[0]] + b[1..];
      StrLessTotal(a[1..], b[1..]);
    }
  }

  /** Keys strictly increasing: the iteration order of a std::map. */
  predicate SortedKeys<V>(m: seq<(string, V)>) {
    forall i, j :: 0 <= i < j < |m| ==> StrLess(m[i].0, m[j].0)
  }

  function Keys<V>(m: seq<(string, V)>): set<string> {
    set i | 0 <= i < |m| :: m[i].0
  }

  lemma KeysCons<V>(e: (string, V), m: seq<(string, V)>)
    ensures Keys([e] + m) == {e.0} + Keys(m)
  {
    var l := [e] + m;
    forall x | x in Keys(l)
      ensures x in {e.0} + Keys(m)
    {
      var i :| 0 <= i < |l| && l[i].0 == x;
      if i > 0 {
        assert m[i - 1].0 == x;
      }
    }
    forall x | x in Keys(m)
      ensures x in Keys(l)
    {
      var i :| 0 <= i < |m| && m[i].0 == x;
      assert l[i + 1].0 == x;
    }
    assert l[0].0 == e.0;
  }

  /** `find`: the value stored under `k`. */
  function Lookup<V>(m: seq<(string, V)>, k: string): Option<V>
    ensures Lookup(m, k).Some? <==> k in Keys(m)
  {
    if |m| == 0 then None
    else if m[0].0 == k then Some(m[0].1)
    else
      KeysCons(m[0], m[1..]);
      assert m == [m[0]] + m[1..];
      Lookup(m[1..], k)
  }

  /** What `m[k] = v` promises of the map `r` it leaves behind. */
  ghost predicate PutResult<V>(m: seq<(string, V)>, k: string, v: V, r: seq<(string, V)>) {
    SortedKeys(r) && Keys(r) == Keys(m) + {k} &&
    forall x :: Lookup(r, x) == if x == k then Some(v) else Lookup(m, x)
  }

  /** `m[k] = v`. */
  function Put<V>(m: seq<(string, V)>, k: string, v: V): (r: seq<(string, V)>)
    requires SortedKeys(m)
    ensures SortedKeys(r)
    ensures Keys(r) == Keys(m) + {k}
    ensures forall x :: Lookup(r, x) == if x == k then Some(v) else Lookup(m, x)
  {
    if |m| == 0 then
      KeysCons((k, v), m);
      [(k, v)]
    else if m[0].0 == k then
      PutReplacesFirst(m, k, v);
      [(k, v)] + m[1..]
    else if StrLess(k, m[0].0) then
      PutBeforeFirst(m, k, v);
      [(k, v)] + m
    else
      var rest := Put(m[1..], k, v);
      PutAfterFirst(m, k, v, rest);
      [m[0]] + rest
  }

  lemma PutReplacesFirst<V>(m: seq<(string, V)>, k: string, v: V)
    requires SortedKeys(m) && |m| > 0 && m[0].0 == k
    ensures PutResult(m, k, v, [(k, v)] + m[1..])
  {
    KeysCons(m[0], m[1..]);
    KeysCons((k, v), m[1..]);
    assert m == [m[0]] + m[1..];
    var r := [(k, v)] + m[1..];
    assert forall j :: 0 < j < |r| ==> r[j] == m[j];
  }

  lemma PutBeforeFirst<V>(m: seq<(string, V)>, k: string, v: V)
    requires SortedKeys(m) && |m| > 0 && StrLess(k, m[0].0)
    ensures PutResult(m, k, v, [(k, v)] + m)
  {
    forall j | 0 < j < |m|
      ensures StrLess(k, m[j].0)
    {
      StrLessTransitive(k, m[0].0, m[j].0);
    }
    var r := [(k, v)] + m;
    assert forall j :: 0 < j < |r| ==> r[j] == m[j - 1];
    KeysCons((k, v), m);
    forall x
      ensures Lookup(r, x) == if x == k then Some(v) else Lookup(m, x)
    {
      if x == k && k in Keys(m) {
        var j :| 0 <= j < |m| && m[j].0 == k;
        StrLessIrreflexive(k);
        assert false;
      }
    }
  }

  lemma PutAfterFirst<V>(m: seq<(string, V)>, k: string, v: V, rest: seq<(string, V)>)
    requires SortedKeys(m) && |m| > 0 && m[0].0 != k && !StrLess(k, m[0].0)
    requires PutResult(m[1..], k, v, rest)
    ensures PutResult(m, k, v, [m[0]] + rest)
  {
    StrLessTotal(k, m[0].0);
    KeysCons(m[0], m[1..]);
    assert m == [m[0]] + m[1..];
    assert forall x :: x in Keys(rest) ==> StrLess(m[0].0, x) by {
      forall x | x in Keys(rest)
        ensures StrLess(m[0].0, x)
      {
        if x != k {
          var j :| 0 <= j < |m[1..]| && m[1..][j].0 == x;
          assert m[j + 1].0 == x;
        }
      }
    }
    var r := [m[0]] + rest;
    assert forall j :: 0 < j < |r| ==> r[j].0 in Keys(rest) by {
      forall j | 0 < j < |r|
        ensures r[j].0 in Keys(rest)
      {
        assert r[j] == rest[j - 1];
      }
    }
    KeysCons(m[0], rest);
  }

  // ---------------------------------------------------------------------
  // Token replacement

  /** `text` occurs in `m` at position `i`. */
  predicate OccursAt(m: string, text: string, i: nat) {
    i + |text| <= |m| && m[i..i + |text|] == text
  }

  /** std::string::find(text, start); None for npos. */
  function Find(m: string, text: string, start: nat): (r: Option<nat>)
    ensures r.Some? ==> start <= r.value && OccursAt(m, text, r.value)
    ensures forall i :: start <= i && (r.None? || i < r.value) ==> !OccursAt(m, text, i)
    decreases |m| - start
  {
    if start + |text| > |m| then None
    else if m[start..start + |text|] == text then Some(start)
    else Find(m, text, start + 1)
  }

  /**
   * Every occurrence of `from` in `m`, scanning left to right and resuming
   * after each match, replaced by `to`.
   */
  function ReplaceAll(m: string, from: string, to: string): string
    requires |from| > 0
    decreases |m|
  {
    if |m| < |from| then m
    else if m[..|from|] == from then to + ReplaceAll(m[|from|..], from, to)
    else [m[0]] + ReplaceAll(m[1..], from, to)
  }

  /** Where `from` does not start, ReplaceAll copies one character. */
  lemma ReplaceAllCopiesOne(s: string, from: string, to: string)
    requires |from| > 0 && |s| > 0
    requires |s| >= |from| ==> s[..|from|] != from
    ensures ReplaceAll(s, from, to) == [s[0]] + ReplaceAll(s[1..], from, to)
  {
  }

  /** ReplaceAll copies the character at i of `m` when `from` does not start there. */
  lemma ReplaceAllSkipsOne(m: string, from: string, to: string, i: nat)
    requires |from| > 0 && i < |m| && !OccursAt(m, from, i)
    ensures ReplaceAll(m[i..], from, to) == [m[i]] + ReplaceAll(m[i + 1..], from, to)
  {
    var s := m[i..];
    assert |s| >= |from| ==> s[..|from|] == m[i..i + |from|];
    ReplaceAllCopiesOne(s, from, to);
    assert s[1..] == m[i + 1..];
  }

  /** Skipping a stretch of `m` in which `from` does not start leaves it unchanged. */
  lemma {:induction false} ReplaceAllSkips(m: string, from: string, to: string, i: nat, j: nat)
    requires |from| > 0 && i <= j <= |m|
    requires forall k :: i <= k < j ==> !OccursAt(m, from, k)
    ensures ReplaceAll(m[i..], from, to) == m[i..j] + ReplaceAll(m[j..], from, to)
    decreases j - i
  {
    if i < j {
      ReplaceAllSkipsOne(m, from, to, i);
      ReplaceAllSkips(m, from, to, i + 1, j);
      calc {
        ReplaceAll(m[i..], from, to);
        [m[i]] + ReplaceAll(m[i + 1..], from, to);
        [m[i]] + (m[i + 1..j] + ReplaceAll(m[j..], from, to));
        { assert m[i..j] == [m[i]] + m[i + 1..j]; }
        m[i..j] + ReplaceAll(m[j..], from, to);
      }
    }
  }

  /** Replacing a placeholder by itself changes nothing. */
  lemma {:induction false} ReplaceAllBySelf(m: string, from: string)
    requires |from| > 0
    ensures ReplaceAll(m, from, from) == m
    decreases |m|
  {
    if |m| >= |from| {
      if m[..|from|] == from {
        ReplaceAllBySelf(m[|from|..], from);
        assert m == m[..|from|] + m[|from|..];
      } else {
        ReplaceAllBySelf(m[1..], from);
        assert m == [m[0]] + m[1..];
      }
    }
  }

  /** A message without '%' is not changed by replacing any text containing '%'. */
  lemma {:induction false} ReplaceAllWithoutPercent(m: string, from: string, to: string)
    requires |from| > 0 && '%' in from && '%' !in m
    ensures ReplaceAll(m, from, to) == m
    decreases |m|
  {
    if |m| >= |from| {
      ReplaceAllWithoutPercent(m[1..], from, to);
      assert m == [m[0]] + m[1..];
    }
  }

  /**
   * replace_token as written: find `from` from the start of the message,
   * replace it, and start over, until it no longer occurs.  `fuel` bounds
   * the number of rounds; None means the loop had not ended by then.
   */
  function ReplaceRounds(m: string, from: string, to: string, fuel: nat): Option<string>
    decreases fuel
  {
    match Find(m, from, 0)
    case None => Some(m)
    case Some(pos) =>
      if fuel == 0 then None
      else ReplaceRounds(m[..pos] + to + m[pos + |from|..], from, to, fuel - 1)
  }

  /** When replace_token as written ends, no occurrence of `from` is left: "not found: all replaced". */
  lemma {:induction false} ReplaceRoundsAllReplaced(m: string, from: string, to: string, fuel: nat)
    requires ReplaceRounds(m, from, to, fuel).Some?
    ensures Find(ReplaceRounds(m, from, to, fuel).value, from, 0).None?
    decreases fuel
  {
    match Find(m, from, 0)
    case None =>
    case Some(pos) =>
      ReplaceRoundsAllReplaced(m[..pos] + to + m[pos + |from|..], from, to, fuel - 1);
  }

  /**
   * Where replace_token as written ends, resuming after the inserted text
   * can still give a different message: the corrected scan of "aab" for
   * "ab" -> "b" leaves "ab", in which "ab" occurs, while the source goes
   * on to "b".
   */
  lemma CorrectedDiffersOnTerminatingInput()
    ensures ReplaceRounds("aab", "ab", "b", 2) == Some("b")
    ensures ReplaceAll("aab", "ab", "b") == "ab" && Find("ab", "ab", 0) == Some(0)
  {
    FindInAab();
    assert "ab"[..2] == "ab";
    assert "aab"[..1] + "b" + "aab"[3..] == "ab";
    assert "ab"[..0] + "b" + "ab"[2..] == "b";
    assert Find("b", "ab", 0) == None;
    assert "aab"[1..] == "ab" && "aab"[1..][2..] == [];
  }

  /** "ab" first occurs in "aab" at position 1. */
  lemma FindInAab()
    ensures "aab"[..2] != "ab"
    ensures Find("aab", "ab", 0) == Some(1)
  {
    assert "aab"[0..2][1] == 'a';
    assert "aab"[1..3] == "ab" by {
      assert "aab"[1..3][0] == 'a' && "aab"[1..3][1] == 'b';
    }
  }

  /**
   * replace_token as written never returns when the replacement is the
   * placeholder itself: for instance the `%value%` of an invalid_bool_value
   * whose offending token is literally "%value%".
   */
  lemma {:induction false} ReplaceRoundsSelfDiverges(m: string, from: string, fuel: nat)
    requires Find(m, from, 0).Some?
    ensures ReplaceRounds(m, from, from, fuel) == None
    decreases fuel
  {
    var pos := Find(m, from, 0).value;
    if fuel > 0 {
      assert m[..pos] + from + m[pos + |from|..] == m by {
        assert m[pos..pos + |from|] == from;
        assert m == m[..pos] + m[pos..pos + |from|] + m[pos + |from|..];
      }
      ReplaceRoundsSelfDiverges(m, from, fuel - 1);
    }
  }

  /** The message of invalid_bool_value for the token "%value%" never gets its placeholder replaced. */
  lemma InvalidBoolValueMessageHangs(fuel: nat)
    ensures ReplaceRounds("the argument ('%value%') for option", "%value%", "%value%", fuel) == None
  {
    var m := "the argument ('%value%') for option";
    assert OccursAt(m, "%value%", 15);
    ReplaceRoundsSelfDiverges(m, "%value%", fuel);
  }

  function Repeat(c: char, n: nat): (r: string)
    ensures |r| == n && forall i :: 0 <= i < n ==> r[i] == c
  {
    if n == 0 then [] else [c] + Repeat(c, n - 1)
  }

  /** b^2n "aab" a^2n */
  function Grown(n: nat): string {
    Repeat('b', 2 * n) + "aab" + Repeat('a', 2 * n)
  }

  /** b^2n "abbaa" a^2n */
  function Grown2(n: nat): string {
    Repeat('b', 2 * n) + "abbaa" + Repeat('a', 2 * n)
  }

  lemma FindAB(n: nat)
    ensures Find(Grown(n), "ab", 0) == Some(2 * n + 1)
  {
    var g := Grown(n);
    forall i | 0 <= i < 2 * n + 1
      ensures !OccursAt(g, "ab", i)
    {
      if i < 2 * n { assert g[i] == 'b'; } else { assert g[i + 1] == 'a'; }
    }
    assert OccursAt(g, "ab", 2 * n + 1) by { assert g[2 * n + 1] == 'a' && g[2 * n + 2] == 'b'; }
    FindFirst(g, "ab", 0, 2 * n + 1);
  }

  lemma FindAB2(n: nat)
    ensures Find(Grown2(n), "ab", 0) == Some(2 * n)
  {
    var h := Grown2(n);
    forall i | 0 <= i < 2 * n
      ensures !OccursAt(h, "ab", i)
    {
      assert h[i] == 'b';
    }
    assert OccursAt(h, "ab", 2 * n) by { assert h[2 * n] == 'a' && h[2 * n + 1] == 'b'; }
    FindFirst(h, "ab", 0, 2 * n);
  }

  /** Find stops at the first occurrence. */
  lemma {:induction false} FindFirst(m: string, text: string, start: nat, p: nat)
    requires start <= p && OccursAt(m, text, p)
    requires forall i :: start <= i < p ==> !OccursAt(m, text, i)
    ensures Find(m, text, start) == Some(p)
    decreases p - start
  {
    if start < p {
      assert !OccursAt(m, text, start);
      FindFirst(m, text, start + 1, p);
    }
  }

  /** One round of replace_token("ab", "bbaa") takes each of the two shapes to the other, one size up. */
  lemma GrownSteps(n: nat)
    ensures Grown(n)[..2 * n + 1] + "bbaa" + Grown(n)[2 * n + 3..] == Grown2(n)
    ensures Grown2(n)[..2 * n] + "bbaa" + Grown2(n)[2 * n + 2..] == Grown(n + 1)
  {
    var b := Repeat('b', 2 * n);
    var a := Repeat('a', 2 * n);
    assert Grown(n)[..2 * n + 1] == b + "a";
    assert Grown(n)[2 * n + 3..] == a;
    assert Grown2(n)[..2 * n] == b;
    assert Grown2(n)[2 * n + 2..] == "baa" + a;
    assert Repeat('b', 2 * n + 2) == b + "bb";
    assert Repeat('a', 2 * n + 2) == "aa" + a;
  }

  /** Every round on b^2n "aab" a^2n finds another occurrence, so the rounds never end. */
  lemma {:induction false} GrownDiverges(n: nat, fuel: nat)
    ensures ReplaceRounds(Grown(n), "ab", "bbaa", fuel) == None
    decreases fuel, 1
  {
    FindAB(n);
    if fuel > 0 {
      GrownSteps(n);
      Grown2Diverges(n, fuel - 1);
      RoundOnFound(Grown(n), "ab", "bbaa", fuel, 2 * n + 1);
    }
  }

  /** Every round on b^2n "abbaa" a^2n finds another occurrence, so the rounds never end. */
  lemma {:induction false} Grown2Diverges(n: nat, fuel: nat)
    ensures ReplaceRounds(Grown2(n), "ab", "bbaa", fuel) == None
    decreases fuel, 0
  {
    FindAB2(n);
    if fuel > 0 {
      GrownSteps(n);
      GrownDiverges(n + 1, fuel - 1);
      RoundOnFound(Grown2(n), "ab", "bbaa", fuel, 2 * n);
    }
  }

  /** One round of replace_token as written, at the first occurrence `pos`. */
  lemma RoundOnFound(m: string, from: string, to: string, fuel: nat, pos: nat)
    requires fuel > 0 && Find(m, from, 0) == Some(pos)
    ensures ReplaceRounds(m, from, to, fuel) == ReplaceRounds(m[..pos] + to + m[pos + |from|..], from, to, fuel - 1)
  {
  }

  /**
   * replace_token as written may also run forever when `to` does not contain
   * `from`: each round can recreate `from` across the seam of the replacement.
   */
  lemma ReplaceRoundsMayDivergeWithoutSelfReference(fuel: nat)
    ensures !OccursAt("bbaa", "ab", 0) && !OccursAt("bbaa", "ab", 1) && !OccursAt("bbaa", "ab", 2)
    ensures ReplaceRounds("aab", "ab", "bbaa", fuel) == None
  {
    GrownZero();
    GrownDiverges(0, fuel);
    NoAbInBbaa();
  }

  lemma GrownZero()
    ensures Grown(0) == "aab"
  {
    assert Repeat('b', 0) == [] && Repeat('a', 0) == [];
  }

  lemma NoAbInBbaa()
    ensures !OccursAt("bbaa", "ab", 0) && !OccursAt("bbaa", "ab", 1) && !OccursAt("bbaa", "ab", 2)
  {
    var t := "bbaa";
    assert t[0..2] != "ab" by { assert t[0..2][0] == 'b'; }
    assert t[1..3] != "ab" by { assert t[1..3][0] == 'b'; }
    assert t[2..4] != "ab" by { assert t[2..4][1] == 'a'; }
  }

  // ---------------------------------------------------------------------
  // Option styles and message templates

  /** command_line_style::style_t values that name a prefix. */
  const AllowLong: int := 1
  const AllowDashForShort: int := 4
  const AllowSlashForShort: int := 8
  const AllowLongDisguise: int := 4096

  const StyleErrorMessage: string :=
    "error_with_option_name::m_option_style can only be one of [0, allow_dash_for_short, allow_slash_for_short, allow_long_disguise or allow_long]"

  /** get_canonical_option_prefix; a failure is the std::logic_error message. */
  function CanonicalOptionPrefix(style: int): (r: Result<string, string>)
    ensures r.Failure? ==> r.error == StyleErrorMessage
  {
    if style == AllowDashForShort || style == AllowLongDisguise then Success("-")
    else if style == AllowSlashForShort then Success("/")
    else if style == AllowLong then Success("--")
    else if style == 0 then Success("")
    else Failure(StyleErrorMessage)
  }

  /** Each accepted style has its prefix; every other style is a logic error. */
  lemma CanonicalOptionPrefixTable(style: int)
    ensures CanonicalOptionPrefix(style).Success? <==>
      style in {0, AllowLong, AllowDashForShort, AllowSlashForShort, AllowLongDisguise}
    ensures CanonicalOptionPrefix(style) == Success("-") <==> style == AllowDashForShort || style == AllowLongDisguise
    ensures CanonicalOptionPrefix(style) == Success("/") <==> style == AllowSlashForShort
    ensures CanonicalOptionPrefix(style) == Success("--") <==> style == AllowLong
    ensures CanonicalOptionPrefix(style) == Success("") <==> style == 0
  {
  }

  /** get_canonical_option_name over the substitutions `subs`. */
  function CanonicalOptionName(style: int, subs: seq<(string, string)>): (r: Result<string, string>)
    ensures r.Failure? ==> r.error == StyleErrorMessage
    ensures (style == 0 || style == AllowLong || style == AllowLongDisguise
             || style == AllowDashForShort || style == AllowSlashForShort) ==> r.Success?
    ensures r.Failure? ==> Lookup(subs, "original_token").Some? && Lookup(subs, "option") != Some("")
  {
    var option := Lookup(subs, "option");
    var original := Lookup(subs, "original_token");
    if option.Some? && |option.value| == 0 then
      Success(if original.Some? then original.value else "")
    else
      var originalToken := if original.Some? then StripPrefixes(original.value) else "";
      var optionName := if option.Some? then StripPrefixes(option.value) else "";
      if style == AllowLong || style == AllowLongDisguise then
        Success(CanonicalOptionPrefix(style).value + optionName)
      else if style != 0 && |originalToken| > 0 then
        match CanonicalOptionPrefix(style)
        case Failure(e) => Failure(e)
        case Success(p) => Success(p + [originalToken[0]])
      else Success(optionName)
  }

  /**
   * The canonical name: the original token when the option name is empty;
   * prefix plus stripped option name for long styles; prefix plus the first
   * character of the stripped token for a short style; otherwise the
   * stripped option name.
   */
  lemma CanonicalOptionNameCases(style: int, optionName: string, originalToken: string)
    ensures var subs := [("option", optionName), ("original_token", originalToken)];
      var r := CanonicalOptionName(style, subs);
      (optionName == "" ==> r == Success(originalToken)) &&
      (optionName != "" && style == AllowLong ==> r == Success("--" + StripPrefixes(optionName))) &&
      (optionName != "" && style == AllowLongDisguise ==> r == Success("-" + StripPrefixes(optionName))) &&
      (optionName != "" && (style == AllowDashForShort || style == AllowSlashForShort) && StripPrefixes(originalToken) != "" ==>
        r == Success(CanonicalOptionPrefix(style).value + [StripPrefixes(originalToken)[0]])) &&
      (optionName != "" && (style == 0 || StripPrefixes(originalToken) == "") && style != AllowLong && style != AllowLongDisguise ==>
        r == Success(StripPrefixes(optionName))) &&
      (r.Failure? <==> (optionName != "" && StripPrefixes(originalToken) != "" &&
        CanonicalOptionPrefix(style).Failure?))
  {
    var subs := [("option", optionName), ("original_token", originalToken)];
    assert Lookup(subs, "option") == Some(optionName);
    assert Lookup(subs, "original_token") == Some(originalToken);
  }

  /** A default: the phrase to look for and the text that replaces it. */
  type Default = (string, string)

  /** The defaults pass: a phrase is rewritten when its parameter is missing or empty. */
  function ApplyDefaults(m: string, defaults: seq<(string, Default)>, subs: seq<(string, string)>): string
    requires forall i :: 0 <= i < |defaults| ==> |defaults[i].1.0| > 0
    decreases |defaults|
  {
    if |defaults| == 0 then m
    else
      var last := defaults[|defaults| - 1];
      var before := ApplyDefaults(m, defaults[..|defaults| - 1], subs);
      var value := Lookup(subs, last.0);
      if value.None? || |value.value| == 0 then ReplaceAll(before, last.1.0, last.1.1) else before
  }

  /** `'%' + name + '%'`. */
  function Placeholder(name: string): (p: string)
    ensures |p| > 0 && '%' in p
  {
    "%" + name + "%"
  }

  /** The values pass: each `%name%` replaced by its value, in key order. */
  function ApplySubstitutions(m: string, subs: seq<(string, string)>): string
    decreases |subs|
  {
    if |subs| == 0 then m
    else
      var last := subs[|subs| - 1];
      ReplaceAll(ApplySubstitutions(m, subs[..|subs| - 1]), Placeholder(last.0), last.1)
  }

  /** A template without '%' is left alone by defaults whose phrases all contain '%'. */
  lemma {:induction false} DefaultsLeaveTemplateWithoutPercent(m: string, defaults: seq<(string, Default)>, subs: seq<(string, string)>)
    requires forall i :: 0 <= i < |defaults| ==> |defaults[i].1.0| > 0 && '%' in defaults[i].1.0
    requires '%' !in m
    ensures ApplyDefaults(m, defaults, subs) == m
    decreases |defaults|
  {
    if |defaults| > 0 {
      DefaultsLeaveTemplateWithoutPercent(m, defaults[..|defaults| - 1], subs);
      var last := defaults[|defaults| - 1];
      ReplaceAllWithoutPercent(m, last.1.0, last.1.1);
    }
  }

  /** A template without '%' has no placeholder to substitute. */
  lemma {:induction false} SubstitutionsLeaveTemplateWithoutPercent(m: string, subs: seq<(string, string)>)
    requires '%' !in m
    ensures ApplySubstitutions(m, subs) == m
    decreases |subs|
  {
    if |subs| > 0 {
      SubstitutionsLeaveTemplateWithoutPercent(m, subs[..|subs| - 1]);
      var last := subs[|subs| - 1];
      ReplaceAllWithoutPercent(m, Placeholder(last.0), last.1);
    }
  }

  /** The end of the invalid_bool_value template, listing the accepted words. */
  const BoolChoices: string :=
    "' is invalid. " + "Valid choices are " + "'on|off', 'yes|no', " + "'1|0' and 'true|false'"

  /** validation_error::get_template. */
  function GetTemplate(kind: int): (t: string)
    ensures '%' in t <==> kind == InvalidBoolValueKind || kind == InvalidOptionValueKind
                          || kind == MultipleValuesNotAllowed || kind == AtLeastOneValueRequired
                          || kind == InvalidOptionKind
  {
    var value := Placeholder("value");
    var option := Placeholder("canonical_option");
    if kind == InvalidBoolValueKind then
      "the argument ('" + value + "') for option '" + option +
      BoolChoices
    else if kind == InvalidOptionValueKind then
      "the argument ('" + value + "') for option '" + option + "' is invalid"
    else if kind == MultipleValuesNotAllowed then
      "option '" + option + "' only takes a single argument"
    else if kind == AtLeastOneValueRequired then
      "option '" + option + "' requires at least one argument"
    else if kind == InvalidOptionKind then
      "option '" + option + "' is not valid"
    else "unknown error"
  }

  /**
   * Every known kind's template names the option through
   * `%canonical_option%`, the two value kinds also show `%value%`; an unknown
   * kind has the fixed text "unknown error", which has no placeholder.
   */
  lemma TemplatesNameTheOption(kind: int)
    ensures kind == InvalidBoolValueKind || kind == InvalidOptionValueKind ==>
      OccursAt(GetTemplate(kind), Placeholder("value"), 15) &&
      OccursAt(GetTemplate(kind), Placeholder("canonical_option"), 37)
    ensures kind == MultipleValuesNotAllowed || kind == AtLeastOneValueRequired || kind == InvalidOptionKind ==>
      OccursAt(GetTemplate(kind), Placeholder("canonical_option"), 8)
    ensures !(MultipleValuesNotAllowed <= kind <= InvalidOptionKind) ==>
      GetTemplate(kind) == "unknown error" && '%' !in GetTemplate(kind)
  {
    if kind == InvalidBoolValueKind {
      ValueTemplateOccurs(BoolChoices);
    } else if kind == InvalidOptionValueKind {
      ValueTemplateOccurs("' is invalid");
    } else if kind == MultipleValuesNotAllowed {
      OptionTemplateOccurs("' only takes a single argument");
    } else if kind == AtLeastOneValueRequired {
      OptionTemplateOccurs("' requires at least one argument");
    } else if kind == InvalidOptionKind {
      OptionTemplateOccurs("' is not valid");
    }
  }

  /** The templates of the two value kinds show the value at 15 and the option at 37. */
  lemma ValueTemplateOccurs(tail: string)
    ensures var v := Placeholder("value");
      var c := Placeholder("canonical_option");
      var t := "the argument ('" + v + "') for option '" + c + tail;
      OccursAt(t, v, 15) && OccursAt(t, c, 37)
  {
    var v := Placeholder("value");
    var c := Placeholder("canonical_option");
    var s1 := "the argument ('";
    var s2 := "') for option '";
    assert |s1| == 15 && |s2| == 15 && |v| == 7;
    OccursAtEnd(s1, v);
    OccursExtends(s1 + v, v, 15, s2);
    OccursExtends(s1 + v + s2, v, 15, c);
    OccursExtends(s1 + v + s2 + c, v, 15, tail);
    OccursAtEnd(s1 + v + s2, c);
    OccursExtends(s1 + v + s2 + c, c, 37, tail);
  }

  /** The templates of the other named kinds show the option at 8. */
  lemma OptionTemplateOccurs(tail: string)
    ensures OccursAt("option '" + Placeholder("canonical_option") + tail, Placeholder("canonical_option"), 8)
  {
    var c := Placeholder("canonical_option");
    assert |"option '"| == 8;
    OccursAtEnd("option '", c);
    OccursExtends("option '" + c, c, 8, tail);
  }

  lemma OccursAtEnd(a: string, b: string)
    ensures OccursAt(a + b, b, |a|)
  {
    assert (a + b)[|a|..|a| + |b|] == b;
  }

  lemma OccursExtends(p: string, text: string, i: nat, rest: string)
    requires OccursAt(p, text, i)
    ensures OccursAt(p + rest, text, i)
  {
    assert (p + rest)[i..i + |text|] == p[i..i + |text|];
  }

  // ---------------------------------------------------------------------
  // Substitution into a template, slot by slot

  /**
   * In `a + %k1% + t`, no `%k%` starts before t when the two keys begin
   * differently and t does not begin with k: a placeholder can only start
   * at a '%', and the two '%' of the slot are followed by k1 and by t.
   */
  lemma SlotHidesOtherPlaceholder(a: string, k1: string, t: string, k: string)
    requires '%' !in a && '%' !in k1 && |k1| > 0 && |k| > 0
    requires k[0] != k1[0] && (|t| > 0 ==> t[0] != k[0])
    ensures forall i :: 0 <= i < |a| + |k1| + 2 ==> !OccursAt(a + Placeholder(k1) + t, Placeholder(k), i)
  {
    var m := a + Placeholder(k1) + t;
    var p := Placeholder(k);
    forall i | 0 <= i < |a| + |k1| + 2
      ensures !OccursAt(m, p, i)
    {
      OccursAtHead(m, p, i);
      assert i < |a| ==> m[i] == a[i];
      assert i == |a| ==> m[i + 1] == k1[0];
      assert |a| < i < |a| + |k1| + 1 ==> m[i] == k1[i - |a| - 1];
      assert i == |a| + |k1| + 1 && i + 1 < |m| ==> m[i + 1] == t[0];
    }
  }

  /** An occurrence starts with the text's first two characters. */
  lemma OccursAtHead(m: string, text: string, i: nat)
    ensures OccursAt(m, text, i) && |text| >= 2 ==> i + 1 < |m| && m[i] == text[0] && m[i + 1] == text[1]
  {
    if OccursAt(m, text, i) && |text| >= 2 {
      assert m[i..i + |text|][0] == text[0] && m[i..i + |text|][1] == text[1];
    }
  }

  /** Replacing `%k%` passes over a slot for another key unchanged. */
  lemma ReplaceAllPastSlot(a: string, k1: string, t: string, k: string, v: string)
    requires '%' !in a && '%' !in k1 && |k1| > 0 && |k| > 0
    requires k[0] != k1[0] && (|t| > 0 ==> t[0] != k[0])
    ensures ReplaceAll(a + Placeholder(k1) + t, Placeholder(k), v)
            == a + Placeholder(k1) + ReplaceAll(t, Placeholder(k), v)
  {
    var m := a + Placeholder(k1) + t;
    var j := |a| + |k1| + 2;
    SlotHidesOtherPlaceholder(a, k1, t, k);
    ReplaceAllSkips(m, Placeholder(k), v, 0, j);
    assert m[0..] == m && m[0..j] == a + Placeholder(k1) && m[j..] == t;
  }

  /** Replacing `%k%` fills a slot for k that follows '%'-free text. */
  lemma ReplaceAllAtSlot(a: string, k: string, t: string, v: string)
    requires '%' !in a
    ensures ReplaceAll(a + Placeholder(k) + t, Placeholder(k), v) == a + v + ReplaceAll(t, Placeholder(k), v)
  {
    var m := a + Placeholder(k) + t;
    var p := Placeholder(k);
    forall i | 0 <= i < |a|
      ensures !OccursAt(m, p, i)
    {
      assert m[i] == a[i];
    }
    ReplaceAllSkips(m, p, v, 0, |a|);
    assert m[0..] == m && m[0..|a|] == a && m[|a|..] == p + t;
    assert (p + t)[..|p|] == p && (p + t)[|p|..] == t;
  }

  /**
   * The invalid_bool_value message, with every parameter given: the
   * defaults leave the template alone, `%canonical_option%` becomes the
   * canonical name, `%value%` the offending token, and the other
   * substitutions find nothing to replace.  Here `subs` is the sorted
   * substitutions map after the canonical name and the prefix are added.
   */
  lemma InvalidBoolValueMessage(name: string, option: string, token: string, prefix: string, value: string)
    requires |name| > 0 && |value| > 0 && '%' !in name && '%' !in value
    ensures var subs := [("canonical_option", name), ("option", option), ("original_token", token),
                         ("prefix", prefix), ("value", value)];
      ApplySubstitutions(ApplyDefaults(GetTemplate(InvalidBoolValueKind), InitialDefaults, subs), subs)
      == "the argument ('" + value + "') for option '" + name + BoolChoices
  {
    var subs := [("canonical_option", name), ("option", option), ("original_token", token),
                 ("prefix", prefix), ("value", value)];
    var a, b, c := "the argument ('", "') for option '", BoolChoices;
    InvalidBoolValueTemplate();
    InvalidBoolValueDefaults(a, b, c, subs);
    InvalidBoolValueSubstitutions(a, b, c, subs);
  }

  /** The invalid_bool_value template as its two slots and three '%'-free pieces. */
  lemma InvalidBoolValueTemplate()
    ensures GetTemplate(InvalidBoolValueKind)
            == "the argument ('" + Placeholder("value") + ("') for option '" + Placeholder("canonical_option") + BoolChoices)
    ensures '%' !in "the argument ('" && '%' !in "') for option '" && '%' !in BoolChoices
    ensures "') for option '"[0] == '\'' && BoolChoices[0] == '\''
  {
    BoolTemplatePieces();
  }

  /** The literal pieces around the slots hold no '%'. */
  lemma BoolTemplatePieces()
    ensures '%' !in "the argument ('" && '%' !in "') for option '" && '%' !in BoolChoices
    ensures "') for option '"[0] == '\'' && BoolChoices[0] == '\''
  {
  }

  /** The defaults of the constructor replace nothing in a value template whose parameters are all set. */
  lemma InvalidBoolValueDefaults(a: string, b: string, c: string, subs: seq<(string, string)>)
    requires '%' !in a && '%' !in b && '%' !in c && |b| > 0 && b[0] == '\'' && |c| > 0 && c[0] == '\''
    requires |subs| == 5 && subs[0].0 == "canonical_option" && subs[4].0 == "value"
    requires |subs[0].1| > 0 && |subs[4].1| > 0
    requires subs[1].0 == "option" && subs[2].0 == "original_token" && subs[3].0 == "prefix"
    ensures ApplyDefaults(a + Placeholder("value") + (b + Placeholder("canonical_option") + c), InitialDefaults, subs)
            == a + Placeholder("value") + (b + Placeholder("canonical_option") + c)
  {
    var template := a + Placeholder("value") + (b + Placeholder("canonical_option") + c);
    var d := InitialDefaults;
    InitialDefaultsFacts();
    assert d[..0] == [];
    assert Lookup(subs, "canonical_option") == Some(subs[0].1);
    ApplyDefaultsStep(template, d, subs, 0);
    ApplyDefaultsStep(template, d, subs, 1);
    PrefixDefaultChangesNothing(a, b, c);
    LookupLastOfFive(subs);
    ApplyDefaultsStep(template, d, subs, 2);
    assert d[..3] == d;
  }

  /** The `%prefix%` default finds nothing to replace in a value template. */
  lemma PrefixDefaultChangesNothing(a: string, b: string, c: string)
    requires '%' !in a && '%' !in b && '%' !in c && |b| > 0 && b[0] == '\'' && |c| > 0 && c[0] == '\''
    ensures InitialDefaults[1].1.0 == "%prefix%"
    ensures ReplaceAll(a + Placeholder("value") + (b + Placeholder("canonical_option") + c), "%prefix%", "")
            == a + Placeholder("value") + (b + Placeholder("canonical_option") + c)
  {
    assert Placeholder("prefix") == "%prefix%";
    ReplaceAllPastSlot(a, "value", b + Placeholder("canonical_option") + c, "prefix", "");
    ReplaceAllPastSlot(b, "canonical_option", c, "prefix", "");
    ReplaceAllWithoutPercent(c, "%prefix%", "");
  }

  /** ApplyDefaults over one more entry replaces that entry's placeholder when its key has no value. */
  lemma ApplyDefaultsStep(m: string, defaults: seq<(string, Default)>, subs: seq<(string, string)>, k: nat)
    requires forall i :: 0 <= i < |defaults| ==> |defaults[i].1.0| > 0
    requires k < |defaults|
    ensures var before := ApplyDefaults(m, defaults[..k], subs);
      var value := Lookup(subs, defaults[k].0);
      ApplyDefaults(m, defaults[..k + 1], subs)
      == if value.None? || |value.value| == 0 then ReplaceAll(before, defaults[k].1.0, defaults[k].1.1) else before
  {
    assert defaults[..k + 1][..k] == defaults[..k];
  }

  /** In a five-entry map keyed as the substitutions are, "value" finds the last entry. */
  lemma LookupLastOfFive(subs: seq<(string, string)>)
    requires |subs| == 5 && subs[0].0 == "canonical_option" && subs[4].0 == "value"
    requires subs[1].0 == "option" && subs[2].0 == "original_token" && subs[3].0 == "prefix"
    ensures Lookup(subs, "value") == Some(subs[4].1)
  {
    var s1 := subs[1..];
    var s2 := s1[1..];
    var s3 := s2[1..];
    var s4 := s3[1..];
    assert s4[0] == subs[4] && s3[0] == subs[3] && s2[0] == subs[2] && s1[0] == subs[1];
    assert Lookup(s4, "value") == Some(subs[4].1);
    assert Lookup(s3, "value") == Lookup(s4, "value");
    assert Lookup(s2, "value") == Lookup(s3, "value");
    assert Lookup(s1, "value") == Lookup(s2, "value");
  }

  /** The substitutions fill the two slots of a value template. */
  lemma InvalidBoolValueSubstitutions(a: string, b: string, c: string, subs: seq<(string, string)>)
    requires '%' !in a && '%' !in b && '%' !in c && |b| > 0 && b[0] == '\'' && |c| > 0 && c[0] == '\''
    requires |subs| == 5 && subs[0].0 == "canonical_option" && subs[4].0 == "value"
    requires subs[1].0 == "option" && subs[2].0 == "original_token" && subs[3].0 == "prefix"
    requires '%' !in subs[0].1 && '%' !in subs[4].1
    ensures ApplySubstitutions(a + Placeholder("value") + (b + Placeholder("canonical_option") + c), subs)
            == a + subs[4].1 + (b + subs[0].1 + c)
  {
    var template := a + Placeholder("value") + (b + Placeholder("canonical_option") + c);
    var tail := b + subs[0].1 + c;
    var filled := a + Placeholder("value") + tail;
    assert subs[..0] == [];
    ApplySubstitutionsStep(template, subs, 0);
    NameFillsItsSlot(a, b, c, subs[0].1);
    ApplySubstitutionsStep(template, subs, 1);
    OtherKeysFindNothing(a, tail, "option", subs[1].1);
    ApplySubstitutionsStep(template, subs, 2);
    OtherKeysFindNothing(a, tail, "original_token", subs[2].1);
    ApplySubstitutionsStep(template, subs, 3);
    OtherKeysFindNothing(a, tail, "prefix", subs[3].1);
    ApplySubstitutionsStep(template, subs, 4);
    ReplaceAllAtSlot(a, "value", tail, subs[4].1);
    ReplaceAllWithoutPercent(tail, Placeholder("value"), subs[4].1);
    assert subs[..5] == subs;
  }

  /** `%canonical_option%` is replaced by the name, behind the `%value%` slot. */
  lemma NameFillsItsSlot(a: string, b: string, c: string, name: string)
    requires '%' !in a && '%' !in b && '%' !in c && |b| > 0 && b[0] == '\''
    ensures ReplaceAll(a + Placeholder("value") + (b + Placeholder("canonical_option") + c), Placeholder("canonical_option"), name)
            == a + Placeholder("value") + (b + name + c)
  {
    ReplaceAllPastSlot(a, "value", b + Placeholder("canonical_option") + c, "canonical_option", name);
    ReplaceAllAtSlot(b, "canonical_option", c, name);
    ReplaceAllWithoutPercent(c, Placeholder("canonical_option"), name);
  }

  /** ApplySubstitutions over one more entry replaces that entry's placeholder. */
  lemma ApplySubstitutionsStep(m: string, subs: seq<(string, string)>, k: nat)
    requires k < |subs|
    ensures ApplySubstitutions(m, subs[..k + 1]) == ReplaceAll(ApplySubstitutions(m, subs[..k]), Placeholder(subs[k].0), subs[k].1)
  {
    assert subs[..k + 1][..k] == subs[..k];
  }

  /** A key other than "value" finds nothing in `a + %value% + tail` when a and tail have no '%'. */
  lemma OtherKeysFindNothing(a: string, tail: string, k: string, v: string)
    requires '%' !in a && '%' !in tail && |tail| > 0 && tail[0] == '\''
    requires |k| > 0 && k[0] != 'v' && k[0] != '\''
    ensures ReplaceAll(a + Placeholder("value") + tail, Placeholder(k), v) == a + Placeholder("value") + tail
  {
    ReplaceAllPastSlot(a, "value", tail, k, v);
    ReplaceAllWithoutPercent(tail, Placeholder(k), v);
  }

  /** The defaults map after the constructor's three set_substitute_default calls, in key order. */
  const InitialDefaults: seq<(string, Default)> :=
    [("canonical_option", ("option '%canonical_option%'", "option")),
     ("prefix", ("%prefix%", "")),
     ("value", ("argument ('%value%')", "argument"))]

  /** The substitutions map after the constructor's two insertions, in key order. */
  function InitialSubstitutions(optionName: string, originalToken: string): seq<(string, string)> {
    [("option", optionName), ("original_token", originalToken)]
  }

  lemma InitialDefaultsFacts()
    ensures SortedKeys(InitialDefaults)
    ensures forall i :: 0 <= i < |InitialDefaults| ==> |InitialDefaults[i].1.0| > 0
    ensures Lookup(InitialDefaults, "canonical_option") == Some(("option '%canonical_option%'", "option"))
    ensures Lookup(InitialDefaults, "value") == Some(("argument ('%value%')", "argument"))
    ensures Lookup(InitialDefaults, "prefix") == Some(("%prefix%", ""))
    ensures Keys(InitialDefaults) == {"canonical_option", "value", "prefix"}
  {
    InitialDefaultsSorted();
    InitialDefaultsLookups();
    InitialDefaultsKeys();
  }

  lemma InitialDefaultsSorted()
    ensures SortedKeys(InitialDefaults)
    ensures forall i :: 0 <= i < |InitialDefaults| ==> |InitialDefaults[i].1.0| > 0
  {
    assert StrLess("canonical_option", "prefix") && StrLess("prefix", "value");
    StrLessTransitive("canonical_option", "prefix", "value");
  }

  lemma InitialDefaultsLookups()
    ensures Lookup(InitialDefaults, "canonical_option") == Some(("option '%canonical_option%'", "option"))
    ensures Lookup(InitialDefaults, "value") == Some(("argument ('%value%')", "argument"))
    ensures Lookup(InitialDefaults, "prefix") == Some(("%prefix%", ""))
  {
    var d := InitialDefaults;
    assert d[1..] == [d[1], d[2]] && d[1..][1..] == [d[2]];
    assert d[0].0 != "value" && d[1].0 != "value" && d[0].0 != "prefix";
  }

  lemma InitialDefaultsKeys()
    ensures Keys(InitialDefaults) == {"canonical_option", "value", "prefix"}
  {
    var d := InitialDefaults;
    KeysCons(d[0], d[1..]);
    KeysCons(d[1], d[2..]);
    KeysCons(d[2], d[3..]);
  }

  lemma InitialSubstitutionsFacts(optionName: string, originalToken: string)
    ensures var m := InitialSubstitutions(optionName, originalToken);
      SortedKeys(m) &&
      Lookup(m, "option") == Some(optionName) &&
      Lookup(m, "original_token") == Some(originalToken) &&
      Keys(m) == {"option", "original_token"}
  {
    var m := InitialSubstitutions(optionName, originalToken);
    assert StrLess("ption", "riginal_token");
    KeysCons(m[0], m[1..]);
    KeysCons(m[1], m[2..]);
  }

  // ---------------------------------------------------------------------
  // error_with_option_name

  /** error_with_option_name and its message cache. */
  class ErrorWithOptionName {
    const style: int
    const errorTemplate: string
    var substitutions: seq<(string, string)>
    var defaults: seq<(string, Default)>
    var message: string

    /** The two maps are sorted, and no default phrase is empty. */
    predicate Valid()
      reads this
    {
      SortedKeys(substitutions) && SortedKeys(defaults) &&
      forall i :: 0 <= i < |defaults| ==> |defaults[i].1.0| > 0
    }

    /** The constructor: three defaults, then the option name and the original token. */
    constructor (template: string, optionName: string, originalToken: string, optionStyle: int)
      ensures Valid() && style == optionStyle && errorTemplate == template && message == ""
      ensures Lookup(defaults, "canonical_option") == Some(("option '%canonical_option%'", "option"))
      ensures Lookup(defaults, "value") == Some(("argument ('%value%')", "argument"))
      ensures Lookup(defaults, "prefix") == Some(("%prefix%", ""))
      ensures Keys(defaults) == {"canonical_option", "value", "prefix"}
      ensures Lookup(substitutions, "option") == Some(optionName)
      ensures Lookup(substitutions, "original_token") == Some(originalToken)
      ensures Keys(substitutions) == {"option", "original_token"}
    {
      style := optionStyle;
      errorTemplate := template;
      defaults := InitialDefaults;
      substitutions := InitialSubstitutions(optionName, originalToken);
      message := "";
      new;
      InitialDefaultsFacts();
      InitialSubstitutionsFacts(optionName, originalToken);
    }

    /** set_substitute. */
    method SetSubstitute(name: string, value: string)
      requires Valid()
      modifies this
      ensures Valid() && substitutions == Put(old(substitutions), name, value)
      ensures defaults == old(defaults) && message == old(message)
    {
      substitutions := Put(substitutions, name, value);
    }

    /** set_substitute_default. */
    method SetSubstituteDefault(name: string, from: string, to: string)
      requires Valid() && |from| > 0
      modifies this
      ensures Valid() && defaults == Put(old(defaults), name, (from, to))
      ensures substitutions == old(substitutions) && message == old(message)
    {
      var d := Put(defaults, name, (from, to));
      forall i | 0 <= i < |d|
        ensures |d[i].1.0| > 0
      {
        assert d[i].0 in Keys(d);
        if d[i].0 != name {
          assert Lookup(d, d[i].0) == Lookup(defaults, d[i].0);
          LookupInSorted(d, i);
          var j := LookupIndex(defaults, d[i].0);
          assert defaults[j].1 == d[i].1;
        } else {
          LookupInSorted(d, i);
        }
      }
      defaults := d;
    }

    /** The message what() yields for `template`, or the logic_error it raises. */
    function Substituted(template: string): Result<string, string>
      requires Valid()
      reads this
    {
      match CanonicalOptionName(style, substitutions)
      case Failure(e) => Failure(e)
      case Success(name) =>
        match CanonicalOptionPrefix(style)
        case Failure(e) => Failure(e)
        case Success(prefix) =>
          var subs := Put(Put(substitutions, "canonical_option", name), "prefix", prefix);
          Success(ApplySubstitutions(ApplyDefaults(template, defaults, subs), subs))
    }

    /**
     * replace_token, corrected: each occurrence of `from` is replaced once and
     * the search resumes after the inserted text, so the loop always ends.
     */
    method ReplaceToken(from: string, to: string)
      requires |from| > 0
      modifies this
      ensures message == ReplaceAll(old(message), from, to)
      ensures substitutions == old(substitutions) && defaults == old(defaults)
    {
      var pos: nat := 0;
      ghost var target := ReplaceAll(message, from, to);
      while true
        invariant pos <= |message|
        invariant substitutions == old(substitutions) && defaults == old(defaults)
        invariant message[..pos] + ReplaceAll(message[pos..], from, to) == target
        decreases |message| - pos
      {
        var found := Find(message, from, pos);
        if found.None? {
          NoMoreOccurrences(message, from, to, pos);
          return;
        }
        var p := found.value;
        OneReplacement(message, from, to, pos, p);
        message := message[..p] + to + message[p + |from|..];
        pos := p + |to|;
      }
    }

    /** replace_token as written, given at most `fuel` rounds; `finished` is false when it would still be looping. */
    method ReplaceTokenAsWritten(from: string, to: string, fuel: nat) returns (finished: bool)
      modifies this
      ensures finished <==> ReplaceRounds(old(message), from, to, fuel).Some?
      ensures finished ==> message == ReplaceRounds(old(message), from, to, fuel).value
      ensures finished ==> Find(message, from, 0).None?
      ensures substitutions == old(substitutions) && defaults == old(defaults)
    {
      var rounds := fuel;
      ghost var outcome := ReplaceRounds(message, from, to, fuel);
      while true
        invariant ReplaceRounds(message, from, to, rounds) == outcome
        invariant substitutions == old(substitutions) && defaults == old(defaults)
        decreases rounds
      {
        var found := Find(message, from, 0);
        if found.None? {
          return true;
        }
        if rounds == 0 {
          return false;
        }
        var pos := found.value;
        message := message[..pos] + to + message[pos + |from|..];
        rounds := rounds - 1;
      }
    }

    /**
     * substitute_placeholders: start from the template, add the canonical
     * name and prefix to a copy of the substitutions, apply the defaults
     * whose parameter is missing or empty, then every `%name%`.
     */
    method SubstitutePlaceholders(template: string) returns (o: Outcome<string>)
      requires Valid()
      modifies this
      ensures Valid() && substitutions == old(substitutions) && defaults == old(defaults)
      ensures Substituted(template).Failure? ==> o == Fail(Substituted(template).error) && message == template
      ensures Substituted(template).Success? ==> o == Pass && message == Substituted(template).value
    {
      message := template;
      var name := CanonicalOptionName(style, substitutions);
      if name.Failure? {
        return Fail(name.error);
      }
      var prefix := CanonicalOptionPrefix(style);
      if prefix.Failure? {
        return Fail(prefix.error);
      }
      var subs := Put(Put(substitutions, "canonical_option", name.value), "prefix", prefix.value);
      ReplaceDefaults(subs);
      ReplacePlaceholders(subs);
      o := Pass;
    }

    /** The defaults loop of substitute_placeholders. */
    method ReplaceDefaults(subs: seq<(string, string)>)
      requires Valid()
      modifies this
      ensures substitutions == old(substitutions) && defaults == old(defaults)
      ensures message == ApplyDefaults(old(message), defaults, subs)
    {
      ghost var start := message;
      for i := 0 to |defaults|
        invariant substitutions == old(substitutions) && defaults == old(defaults)
        invariant message == ApplyDefaults(start, defaults[..i], subs)
      {
        assert defaults[..i + 1][..i] == defaults[..i];
        var value := Lookup(subs, defaults[i].0);
        if value.None? || |value.value| == 0 {
          ReplaceToken(defaults[i].1.0, defaults[i].1.1);
        }
      }
      assert defaults[..|defaults|] == defaults;
    }

    /** The placeholder loop of substitute_placeholders. */
    method ReplacePlaceholders(subs: seq<(string, string)>)
      modifies this
      ensures substitutions == old(substitutions) && defaults == old(defaults)
      ensures message == ApplySubstitutions(old(message), subs)
    {
      ghost var start := message;
      for i := 0 to |subs|
        invariant substitutions == old(substitutions) && defaults == old(defaults)
        invariant message == ApplySubstitutions(start, subs[..i])
      {
        assert subs[..i + 1][..i] == subs[..i];
        ReplaceToken(Placeholder(subs[i].0), subs[i].1);
      }
      assert subs[..|subs|] == subs;
    }

    /** what(): substitutes into the stored template and yields the message. */
    method What() returns (r: Result<string, string>)
      requires Valid()
      modifies this
      ensures Valid() && substitutions == old(substitutions) && defaults == old(defaults)
      ensures r == Substituted(errorTemplate)
    {
      var o := SubstitutePlaceholders(errorTemplate);
      if o.Fail? {
        return Failure(o.error);
      }
      r := Success(message);
    }
  }

  /** An entry of a sorted list is what Lookup finds under its key. */
  lemma {:induction false} LookupInSorted<V>(m: seq<(string, V)>, i: nat)
    requires SortedKeys(m) && i < |m|
    ensures Lookup(m, m[i].0) == Some(m[i].1)
  {
    if i > 0 {
      assert StrLess(m[0].0, m[i].0);
      if m[0].0 == m[i].0 {
        StrLessIrreflexive(m[0].0);
      }
      assert SortedKeys(m[1..]) by {
        forall a, b | 0 <= a < b < |m[1..]|
          ensures StrLess(m[1..][a].0, m[1..][b].0)
        {
          assert m[1..][a] == m[a + 1] && m[1..][b] == m[b + 1];
        }
      }
      LookupInSorted(m[1..], i - 1);
    }
  }

  /** The index of the entry Lookup finds. */
  function LookupIndex<V>(m: seq<(string, V)>, k: string): (i: nat)
    requires Lookup(m, k).Some?
    ensures i < |m| && m[i].0 == k && Lookup(m, k) == Some(m[i].1)
  {
    if m[0].0 == k then 0 else 1 + LookupIndex(m[1..], k)
  }

  /** Once `from` no longer occurs after `pos`, the scan's result is the message itself. */
  lemma NoMoreOccurrences(m: string, from: string, to: string, pos: nat)
    requires |from| > 0 && pos <= |m| && Find(m, from, pos).None?
    ensures m[..pos] + ReplaceAll(m[pos..], from, to) == m
  {
    ReplaceAllSkips(m, from, to, pos, |m|);
    ReplaceAllTail(m[|m|..], from, to);
    assert m[..pos] + m[pos..] == m;
  }

  /** Replacing the next occurrence and moving past the inserted text keeps the scan's result. */
  lemma OneReplacement(m: string, from: string, to: string, pos: nat, p: nat)
    requires |from| > 0 && pos <= |m| && Find(m, from, pos) == Some(p)
    ensures var next := m[..p] + to + m[p + |from|..];
      p + |to| <= |next| &&
      next[..p + |to|] + ReplaceAll(next[p + |to|..], from, to) == m[..pos] + ReplaceAll(m[pos..], from, to)
  {
    var next := m[..p] + to + m[p + |from|..];
    var rest := ReplaceAll(m[p + |from|..], from, to);
    calc {
      m[..pos] + ReplaceAll(m[pos..], from, to);
      { ReplaceAllSkips(m, from, to, pos, p); }
      m[..pos] + (m[pos..p] + ReplaceAll(m[p..], from, to));
      { ReplaceAllAt(m, from, to, p); }
      m[..pos] + (m[pos..p] + (to + rest));
      { assert m[..pos] + m[pos..p] == m[..p]; }
      (m[..p] + to) + rest;
      { SplitAfterInsert(m[..p], to, m[p + |from|..]); }
      next[..p + |to|] + ReplaceAll(next[p + |to|..], from, to);
    }
  }

  lemma SplitAfterInsert(a: string, b: string, c: string)
    ensures (a + b + c)[..|a| + |b|] == a + b && (a + b + c)[|a| + |b|..] == c
  {
  }

  /** ReplaceAll of a text shorter than the pattern is the text itself. */
  lemma ReplaceAllTail(m: string, from: string, to: string)
    requires |from| > 0 && |m| < |from|
    ensures ReplaceAll(m, from, to) == m
  {
  }

  /** ReplaceAll at an occurrence. */
  lemma ReplaceAllAt(m: string, from: string, to: string, p: nat)
    requires |from| > 0 && OccursAt(m, from, p)
    ensures ReplaceAll(m[p..], from, to) == to + ReplaceAll(m[p + |from|..], from, to)
  {
    assert m[p..][..|from|] == from;
    assert m[p..][|from|..] == m[p + |from|..];
  }
}

/**
 * collect_unrecognized from the program-options command-line parsers:
 * gathers the original tokens of the options the parser did not
 * recognise (and, on request, of the positional ones).
 */
module Parsers {

  /** The parts of basic_option that collect_unrecognized reads. */
  datatype ParsedOption = ParsedOption(
    stringKey: string,
    positionKey: int,
    originalTokens: seq<string>,
    unregistered: bool)

  /** collect_unrecognized_mode */
  datatype CollectMode = IncludePositional | ExcludePositional

  /** Whether the option's tokens are collected in the given mode. */
  predicate Selected(o: ParsedOption, mode: CollectMode) {
    o.unregistered || (mode == IncludePositional && o.positionKey != -1)
  }

  /** The tokens collected from `options`, in input order. */
  function Collected(options: seq<ParsedOption>, mode: CollectMode): seq<string>
  {
    if |options| == 0 then []
    else Collected(options[..|options| - 1], mode)
         + (if Selected(options[|options| - 1], mode) then options[|options| - 1].originalTokens else [])
  }

  /** collect_unrecognized: one pass over the options, appending the tokens of each selected one. */
  method CollectUnrecognized(options: seq<ParsedOption>, mode: CollectMode) returns (result: seq<string>)
    ensures result == Collected(options, mode)
  {
    result := [];
    var i := 0;
    while i < |options|
      invariant 0 <= i <= |options|
      invariant result == Collected(options[..i], mode)
    {
      assert options[..i + 1][..i] == options[..i];
      if options[i].unregistered || (mode == IncludePositional && options[i].positionKey != -1) {
        result := result + options[i].originalTokens;
      }
      i := i + 1;
    }
    assert options[..|options|] == options;
  }

  // ---------------------------------------------------------------------
  // Reference definition: filter the selected options, then flatten

  function Filter(options: seq<ParsedOption>, mode: CollectMode): (r: seq<ParsedOption>)
    ensures |r| <= |options|
    ensures forall o :: o in r ==> o in options && Selected(o, mode)
  {
    if |options| == 0 then []
    else (if Selected(options[0], mode) then [options[0]] else []) + Filter(options[1..], mode)
  }

  function Flatten(options: seq<ParsedOption>): seq<string> {
    if |options| == 0 then [] else options[0].originalTokens + Flatten(options[1..])
  }

  function TokenCount(options: seq<ParsedOption>): nat {
    if |options| == 0 then 0 else |options[0].originalTokens| + TokenCount(options[1..])
  }

  /** Collecting over a concatenation collects each part in turn. */
  lemma {:induction false} CollectedAppend(a: seq<ParsedOption>, b: seq<ParsedOption>, mode: CollectMode)
    ensures Collected(a + b, mode) == Collected(a, mode) + Collected(b, mode)
    decreases |b|
  {
    if |b| == 0 {
      assert a + b == a;
    } else {
      var last := b[|b| - 1];
      assert (a + b)[..|a + b| - 1] == a + b[..|b| - 1];
      CollectedAppend(a, b[..|b| - 1], mode);
    }
  }

  /** The result is the concatenation, in input order, of the selected options' tokens. */
  lemma {:induction false} CollectedIsFlattenedSelection(options: seq<ParsedOption>, mode: CollectMode)
    ensures Collected(options, mode) == Flatten(Filter(options, mode))
    decreases |options|
  {
    if |options| > 0 {
      CollectedIsFlattenedSelection(options[1..], mode);
      assert options == [options[0]] + options[1..];
      CollectedAppend([options[0]], options[1..], mode);
      assert [options[0]][..0] == [];
      var rest := Filter(options[1..], mode);
      if Selected(options[0], mode) {
        assert Collected([options[0]], mode) == options[0].originalTokens;
        assert Filter(options, mode) == [options[0]] + rest;
        assert ([options[0]] + rest)[1..] == rest;
      } else {
        assert Collected([options[0]], mode) == [];
        assert Filter(options, mode) == rest;
      }
    }
  }

  /** The result has as many tokens as the selected options hold together. */
  lemma {:induction false} CollectedLength(options: seq<ParsedOption>, mode: CollectMode)
    ensures |Collected(options, mode)| == TokenCount(Filter(options, mode))
  {
    CollectedIsFlattenedSelection(options, mode);
    FlattenLength(Filter(options, mode));
  }

  lemma {:induction false} FlattenLength(options: seq<ParsedOption>)
    ensures |Flatten(options)| == TokenCount(options)
    decreases |options|
  {
    if |options| > 0 {
      FlattenLength(options[1..]);
    }
  }

  /** The options with every position cleared to -1. */
  function WithoutPositions(options: seq<ParsedOption>): (r: seq<ParsedOption>)
    ensures |r| == |options|
    ensures forall i :: 0 <= i < |r| ==> r[i] == options[i].(positionKey := -1)
  {
    if |options| == 0 then [] else WithoutPositions(options[..|options| - 1]) + [options[|options| - 1].(positionKey := -1)]
  }

  /**
   * Outside include_positional, positions play no part: the result is the
   * one include_positional gives once every position is cleared.
   */
  lemma {:induction false} ExcludeIgnoresPositions(options: seq<ParsedOption>)
    ensures Collected(options, ExcludePositional) == Collected(WithoutPositions(options), IncludePositional)
    decreases |options|
  {
    if |options| > 0 {
      var n := |options| - 1;
      ExcludeIgnoresPositions(options[..n]);
      assert WithoutPositions(options)[..n] == WithoutPositions(options[..n]);
    }
  }

  /** A registered option without a position never contributes, whatever the mode. */
  lemma {:induction false} RegisteredNonPositionalIgnored(options: seq<ParsedOption>, o: ParsedOption, mode: CollectMode)
    requires !o.unregistered && o.positionKey == -1
    ensures Collected(options + [o], mode) == Collected(options, mode)
  {
    assert (options + [o])[..|options|] == options;
  }

  /** In exclude_positional mode every collected token belongs to an unregistered option. */
  lemma {:induction false} ExcludedTokensAreUnregistered(options: seq<ParsedOption>, t: string)
    requires t in Collected(options, ExcludePositional)
    ensures exists i :: 0 <= i < |options| && options[i].unregistered && t in options[i].originalTokens
    decreases |options|
  {
    var n := |options| - 1;
    if t in Collected(options[..n], ExcludePositional) {
      ExcludedTokensAreUnregistered(options[..n], t);
      var i :| 0 <= i < n && options[..n][i].unregistered && t in options[..n][i].originalTokens;
      assert options[..n][i] == options[i];
    } else {
      assert options[n].unregistered && t in options[n].originalTokens;
    }
  }

  /** Each token of a selected option appears in the result. */
  lemma {:induction false} SelectedTokensCollected(options: seq<ParsedOption>, mode: CollectMode, i: nat, t: string)
    requires i < |options| && Selected(options[i], mode) && t in options[i].originalTokens
    ensures t in Collected(options, mode)
    decreases |options|
  {
    var n := |options| - 1;
    if i < n {
      assert options[..n][i] == options[i];
      SelectedTokensCollected(options[..n], mode, i, t);
    }
  }
}

/**
 * How a command-line option's tokens become a stored value: prefix
 * stripping of option names, the untyped value semantic (one raw string),
 * the bool and string validators, and the bool_switch value descriptor.
 *
 * The type-erased `any` a value is stored into is the datatype `Any`, held
 * by reference in a `ValueStore`.
 */
module ValueSemantic {
  import opened Wrappers

  /** The characters find_first_not_of("-/") skips. */
  predicate IsPrefixChar(c: char) {
    c == '-' || c == '/'
  }

  /** find_first_not_of("-/") from position `i`; |text| stands for npos. */
  function FirstNotPrefix(text: string, i: nat): (j: nat)
    requires i <= |text|
    ensures i <= j <= |text|
    ensures forall k :: i <= k < j ==> IsPrefixChar(text[k])
    ensures j < |text| ==> !IsPrefixChar(text[j])
    decreases |text| - i
  {
    if i == |text| || !IsPrefixChar(text[i]) then i else FirstNotPrefix(text, i + 1)
  }

  /** strip_prefixes: "--foo-bar" becomes "foo-bar"; a text made only of '-' and '/' is returned as it is. */
  function StripPrefixes(text: string): (r: string)
    ensures (forall k :: 0 <= k < |text| ==> IsPrefixChar(text[k])) ==> r == text
    ensures (exists k :: 0 <= k < |text| && !IsPrefixChar(text[k])) ==>
      0 < |r| <= |text| && !IsPrefixChar(r[0]) && r == text[|text| - |r|..] &&
      forall k :: 0 <= k < |text| - |r| ==> IsPrefixChar(text[k])
  {
    var i := FirstNotPrefix(text, 0);
    if i == |text| then text else text[i..]
  }

  /** Stripping twice is stripping once. */
  lemma StripPrefixesIdempotent(text: string)
    ensures StripPrefixes(StripPrefixes(text)) == StripPrefixes(text)
  {
    var r := StripPrefixes(text);
    if exists k :: 0 <= k < |text| && !IsPrefixChar(text[k]) {
      assert !IsPrefixChar(r[0]);
    }
  }

  /** hpx::any_nonser as used by the validators. */
  datatype Any = NoValue | StringValue(s: string) | BoolValue(b: bool)

  /** The value_store a validator fills in. */
  class ValueStore {
    var value: Any

    constructor ()
      ensures value == NoValue
    {
      value := NoValue;
    }
  }

  /** validation_error::kind_t. */
  const MultipleValuesNotAllowed: int := 30
  const AtLeastOneValueRequired: int := 31
  const InvalidBoolValueKind: int := 32
  const InvalidOptionValueKind: int := 33
  const InvalidOptionKind: int := 34

  /** The exceptions the validators throw. */
  datatype Error =
    | MultipleOccurrences
    | MultipleValues
    | Validation(kind: int)
    | InvalidBoolValue(value: string)

  /** validators::check_first_occurrence: a value may be given only once. */
  function CheckFirstOccurrence(value: Any): (o: Outcome<Error>)
    ensures o == Pass <==> value == NoValue
    ensures o != Pass ==> o == Fail(MultipleOccurrences)
  {
    if value != NoValue then Fail(MultipleOccurrences) else Pass
  }

  /** get_single_string: exactly one token, or none when `allowEmpty`. */
  function GetSingleString(xs: seq<string>, allowEmpty: bool): (r: Result<string, Error>)
    ensures |xs| > 1 <==> r == Failure(Validation(MultipleValuesNotAllowed))
    ensures |xs| == 0 && !allowEmpty <==> r == Failure(Validation(AtLeastOneValueRequired))
    ensures r.Success? ==> (|xs| == 1 && r.value == xs[0]) || (|xs| == 0 && allowEmpty && r.value == "")
  {
    if |xs| > 1 then Failure(Validation(MultipleValuesNotAllowed))
    else if |xs| == 1 then Success(xs[0])
    else if !allowEmpty then Failure(Validation(AtLeastOneValueRequired))
    else Success("")
  }

  /** The value semantic that stores its single token as a raw string. */
  class UntypedValue {
    const zeroTokens: bool

    constructor (zeroTokens': bool)
      ensures zeroTokens == zeroTokens'
    {
      zeroTokens := zeroTokens';
    }

    /** name: the same fixed parameter name for every untyped value. */
    function Name(): (r: string)
      ensures r == "arg"
    {
      "arg"
    }

    /** min_tokens: none for a zero-token value, otherwise exactly one. */
    function MinTokens(): (r: nat)
      ensures r <= 1
      ensures r == 0 <==> zeroTokens
    {
      if zeroTokens then 0 else 1
    }

    /** max_tokens: always equal to min_tokens, so the count is fixed. */
    function MaxTokens(): (r: nat)
      ensures r == MinTokens() && r <= 1
      ensures r == 0 <==> zeroTokens
    {
      MinTokens()
    }

    /**
     * xparse: a second occurrence and more than one token are errors;
     * otherwise the first token (or "" for none) is stored.
     */
    method Xparse(store: ValueStore, tokens: seq<string>) returns (o: Outcome<Error>)
      modifies store
      ensures old(store.value) != NoValue ==> o == Fail(MultipleOccurrences) && store.value == old(store.value)
      ensures old(store.value) == NoValue && |tokens| > 1 ==> o == Fail(MultipleValues) && store.value == NoValue
      ensures old(store.value) == NoValue && |tokens| <= 1 ==>
        o == Pass && store.value == StringValue(if |tokens| == 0 then "" else tokens[0])
    {
      if store.value != NoValue {
        return Fail(MultipleOccurrences);
      }
      if |tokens| > 1 {
        return Fail(MultipleValues);
      }
      store.value := StringValue(if |tokens| == 0 then "" else tokens[0]);
      o := Pass;
    }
  }

  /** An untyped value takes exactly one token, or none when zero_tokens is set. */
  lemma UntypedTokenCounts(v: UntypedValue)
    ensures v.MinTokens() == v.MaxTokens() <= 1
    ensures v.MinTokens() == 0 <==> v.zeroTokens
  {
  }

  /** std::tolower in the "C" locale. */
  function ToLower(c: char): (l: char)
    ensures 'A' <= c <= 'Z' ==> l as int == c as int + 32
    ensures !('A' <= c <= 'Z') ==> l == c
    ensures !('A' <= l <= 'Z')
  {
    if 'A' <= c <= 'Z' then (c as int + 32) as char else c
  }

  /** Every character lower-cased. */
  ghost predicate IsLowered(s: string, r: string) {
    |r| == |s| && forall i :: 0 <= i < |s| ==> r[i] == ToLower(s[i])
  }

  /** The lower-cased copy of `s`. */
  function LowerAll(s: string): (r: string)
    ensures IsLowered(s, r)
  {
    if |s| == 0 then [] else [ToLower(s[0])] + LowerAll(s[1..])
  }

  /** The validate loop `for (char& i : s) i = char(std::tolower(i));`. */
  method Lowercase(s: string) returns (r: string)
    ensures r == LowerAll(s)
  {
    r := s;
    var i := 0;
    while i < |r|
      invariant 0 <= i <= |r| == |s|
      invariant forall k :: 0 <= k < i ==> r[k] == ToLower(s[k])
      invariant forall k :: i <= k < |r| ==> r[k] == s[k]
    {
      r := r[i := ToLower(r[i])];
      i := i + 1;
    }
    LowerAllUnique(s, r);
  }

  /** Lower-casing has only one result. */
  lemma LowerAllUnique(s: string, r: string)
    requires IsLowered(s, r)
    ensures r == LowerAll(s)
  {
    var l := LowerAll(s);
    assert |r| == |l|;
    assert forall i :: 0 <= i < |r| ==> r[i] == l[i];
  }

  /** Lower-casing twice is lower-casing once. */
  lemma LowerAllIdempotent(s: string)
    ensures LowerAll(LowerAll(s)) == LowerAll(s)
  {
    LowerAllUnique(LowerAll(s), LowerAll(s));
  }

  /** The words the bool validator accepts, already lower-cased: empty, on, yes, 1, true; off, no, 0, false. */
  function BoolWord(s: string): Option<bool> {
    if s == "" || s == "on" || s == "yes" || s == "1" || s == "true" then Some(true)
    else if s == "off" || s == "no" || s == "0" || s == "false" then Some(false)
    else None
  }

  /** The outcome of validating `xs` for a bool option whose store holds `prior`. */
  function BoolValidation(prior: Any, xs: seq<string>): Result<bool, Error> {
    if prior != NoValue then Failure(MultipleOccurrences)
    else
      match GetSingleString(xs, true)
      case Failure(e) => Failure(e)
      case Success(s) =>
        var l := LowerAll(s);
        match BoolWord(l)
        case Some(b) => Success(b)
        case None => Failure(InvalidBoolValue(l))
  }

  /** validate for bool: lower-cases the single token, then maps it to true or false. */
  method ValidateBool(store: ValueStore, xs: seq<string>) returns (o: Outcome<Error>)
    modifies store
    ensures BoolValidation(old(store.value), xs).Success? ==>
      o == Pass && store.value == BoolValue(BoolValidation(old(store.value), xs).value)
    ensures BoolValidation(old(store.value), xs).Failure? ==>
      o == Fail(BoolValidation(old(store.value), xs).error) && store.value == old(store.value)
  {
    var first := CheckFirstOccurrence(store.value);
    if first.Fail? {
      return first;
    }
    var single := GetSingleString(xs, true);
    if single.Failure? {
      return Fail(single.error);
    }
    var s := Lowercase(single.value);
    if s == "" || s == "on" || s == "yes" || s == "1" || s == "true" {
      store.value := BoolValue(true);
    } else if s == "off" || s == "no" || s == "0" || s == "false" {
      store.value := BoolValue(false);
    } else {
      return Fail(InvalidBoolValue(s));
    }
    o := Pass;
  }

  /**
   * The bool validator, on a fresh store and one token: true exactly for the
   * five true words in any case, false exactly for the four false words,
   * otherwise invalid_bool_value carrying the lower-cased token; no token at all means true.
   */
  lemma BoolValidationTable(t: string)
    ensures BoolValidation(NoValue, [t]) == Success(true) <==>
      LowerAll(t) in {"", "on", "yes", "1", "true"}
    ensures BoolValidation(NoValue, [t]) == Success(false) <==>
      LowerAll(t) in {"off", "no", "0", "false"}
    ensures BoolValidation(NoValue, [t]).Failure? <==> BoolValidation(NoValue, [t]) == Failure(InvalidBoolValue(LowerAll(t)))
    ensures BoolValidation(NoValue, []) == Success(true)
  {
  }

  /** Case does not matter to the bool validator. */
  lemma BoolValidationIgnoresCase(prior: Any, a: string, b: string)
    requires LowerAll(a) == LowerAll(b)
    ensures BoolValidation(prior, [a]) == BoolValidation(prior, [b])
  {
  }

  /** A prior value is reported before anything about the tokens. */
  lemma BoolValidationChecksOccurrenceFirst(prior: Any, xs: seq<string>)
    requires prior != NoValue
    ensures BoolValidation(prior, xs) == Failure(MultipleOccurrences)
  {
  }

  /** validate for std::string: exactly one token is stored as it is. */
  method ValidateString(store: ValueStore, xs: seq<string>) returns (o: Outcome<Error>)
    modifies store
    ensures old(store.value) != NoValue ==> o == Fail(MultipleOccurrences) && store.value == old(store.value)
    ensures old(store.value) == NoValue && GetSingleString(xs, false).Failure? ==>
      o == Fail(GetSingleString(xs, false).error) && store.value == NoValue
    ensures old(store.value) == NoValue && GetSingleString(xs, false).Success? ==>
      o == Pass && store.value == StringValue(xs[0])
  {
    var first := CheckFirstOccurrence(store.value);
    if first.Fail? {
      return first;
    }
    var single := GetSingleString(xs, false);
    if single.Failure? {
      return Fail(single.error);
    }
    store.value := StringValue(single.value);
    o := Pass;
  }

  /** A bool variable an option may write to (the `bool*` of bool_switch). */
  class BoolVar {
    var b: bool

    constructor (b': bool)
      ensures b == b'
    {
      b := b';
    }
  }

  /** typed_value<bool>: the parts bool_switch sets. */
  class TypedBoolValue {
    const target: BoolVar?
    var defaultValue: Option<bool>
    var zeroTokens: bool

    constructor (target': BoolVar?)
      ensures target == target' && defaultValue == None && !zeroTokens
    {
      target := target';
      defaultValue := None;
      zeroTokens := false;
    }

    /** default_value. */
    method DefaultValue(v: bool)
      modifies this
      ensures defaultValue == Some(v) && zeroTokens == old(zeroTokens)
    {
      defaultValue := Some(v);
    }

    /** zero_tokens. */
    method ZeroTokens()
      modifies this
      ensures zeroTokens && defaultValue == old(defaultValue)
    {
      zeroTokens := true;
    }
  }

  /** bool_switch: a bool value that defaults to false and takes no token. */
  method BoolSwitch(v: BoolVar?) returns (r: TypedBoolValue)
    ensures fresh(r) && r.target == v
    ensures r.defaultValue == Some(false) && r.zeroTokens
  {
    r := new TypedBoolValue(v);
    r.DefaultValue(false);
    r.ZeroTokens();
  }
}

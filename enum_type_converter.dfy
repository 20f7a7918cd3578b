/**
 * The display text of an enumeration property (EnumTypeConverter.ts): the
 * label of the first choice whose value is the property's value, or the
 * generic conversion of the value when the description has no enumeration
 * or no choice matches.
 */
module EnumConverter {

  import opened Wrappers

  /** `Primitives.Enum`: a number or a string; `===` tells the two kinds apart. */
  datatype EnumValue = Num(n: int) | Str(s: string)

  /** `EnumerationChoice`; `labelText` is its `label` (a reserved word in Dafny). */
  datatype EnumerationChoice = EnumerationChoice(labelText: string, value: EnumValue)

  /** The part of a `PropertyDescription` the converter reads: its optional `enum.choices`. */
  datatype PropertyDescription = PropertyDescription(choices: Option<seq<EnumerationChoice>>)

  /** Some choice has the value `v`. */
  predicate HasMatch(choices: seq<EnumerationChoice>, v: EnumValue) {
    exists i :: 0 <= i < |choices| && choices[i].value == v
  }

  /** The index of the first choice whose value is `v`, read off from the front. */
  function FirstMatch(choices: seq<EnumerationChoice>, v: EnumValue): (p: int)
    ensures -1 <= p < |choices|
  {
    if choices == [] then -1
    else if choices[0].value == v then 0
    else
      var p := FirstMatch(choices[1..], v);
      if p == -1 then -1 else p + 1
  }

  /**
   * `FirstMatch` is -1 exactly when nothing matches, and otherwise the
   * least matching index.
   */
  lemma {:induction false} FirstMatchMeaning(choices: seq<EnumerationChoice>, v: EnumValue)
    ensures FirstMatch(choices, v) == -1 <==> !HasMatch(choices, v)
    ensures FirstMatch(choices, v) >= 0 ==>
      choices[FirstMatch(choices, v)].value == v
      && forall j :: 0 <= j < FirstMatch(choices, v) ==> choices[j].value != v
  {
    if choices != [] && choices[0].value != v {
      var tail := choices[1..];
      FirstMatchMeaning(tail, v);
      if HasMatch(choices, v) {
        var i :| 0 <= i < |choices| && choices[i].value == v;
        assert tail[i - 1].value == v;
      }
      if HasMatch(tail, v) {
        var i :| 0 <= i < |tail| && tail[i].value == v;
        assert choices[i + 1].value == v;
      }
      var p := FirstMatch(tail, v);
      if p >= 0 {
        forall j | 0 <= j < p + 1
          ensures choices[j].value != v
        {
          if j > 0 {
            assert choices[j] == tail[j - 1];
          }
        }
      }
    }
  }

  /**
   * `getPosition`: the loop over the choices, stopping at the first whose
   * value is strictly equal to `v`; -1 if there is none.
   */
  method GetPosition(choices: seq<EnumerationChoice>, v: EnumValue) returns (pos: int)
    ensures pos == FirstMatch(choices, v)
    ensures pos == -1 <==> !HasMatch(choices, v)
    ensures pos >= 0 ==>
      pos < |choices| && choices[pos].value == v
      && forall j :: 0 <= j < pos ==> choices[j].value != v
  {
    FirstMatchMeaning(choices, v);
    var i := 0;
    while i < |choices|
      invariant 0 <= i <= |choices|
      invariant forall j :: 0 <= j < i ==> choices[j].value != v
    {
      if choices[i].value == v {
        FirstIsFirstMatch(choices, v, i);
        return i;
      }
      i := i + 1;
    }
    return -1;
  }

  /** An index that matches, with no match before it, is the one `FirstMatch` finds. */
  lemma FirstIsFirstMatch(choices: seq<EnumerationChoice>, v: EnumValue, i: int)
    requires 0 <= i < |choices| && choices[i].value == v
    requires forall j :: 0 <= j < i ==> choices[j].value != v
    ensures FirstMatch(choices, v) == i
  {
    FirstMatchMeaning(choices, v);
    var p := FirstMatch(choices, v);
    assert p != -1;
    if p < i {
      assert choices[p].value == v;
    }
  }

  /**
   * `convertPropertyToString`: an absent value is "", a value matching a
   * choice of the description's enumeration shows that choice's label (the
   * first such choice), and anything else is shown by `convertToString`,
   * the base converter, which is a parameter here.
   */
  method ConvertPropertyToString(description: PropertyDescription, value: Option<EnumValue>,
                                 convertToString: EnumValue -> string)
    returns (r: string)
    ensures value.None? ==> r == ""
    ensures value.Some? && description.choices.Some? && HasMatch(description.choices.value, value.value) ==>
      exists i :: 0 <= i < |description.choices.value|
        && description.choices.value[i].value == value.value
        && (forall j :: 0 <= j < i ==> description.choices.value[j].value != value.value)
        && r == description.choices.value[i].labelText
    ensures value.Some? && (description.choices.None? || !HasMatch(description.choices.value, value.value)) ==>
      r == convertToString(value.value)
  {
    if value.None? {
      return "";
    }
    if description.choices.Some? {
      var pos := GetPosition(description.choices.value, value.value);
      if -1 != pos {
        return description.choices.value[pos].labelText;
      }
    }
    return convertToString(value.value);
  }

  /** A later choice with the same value as an earlier one is never shown. */
  lemma ShadowedChoice(choices: seq<EnumerationChoice>, i: int, j: int)
    requires 0 <= i < j < |choices| && choices[i].value == choices[j].value
    ensures FirstMatch(choices, choices[j].value) <= i
  {
    FirstMatchMeaning(choices, choices[j].value);
    assert HasMatch(choices, choices[j].value);
  }
}

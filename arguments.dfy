/**
 * The argument-list codecs (section 2.6 of the GraphQL specification): `format_arguments` of the
 * formatter and `__arguments_to_s` of the earlier `Arguments` mixin. An argument map renders
 * like an input object, with parentheses instead of braces; an empty map renders nothing.
 */
module ArgumentFormatter {
  import opened Wrappers
  import opened Values
  import Text
  import ValueFormatter

  /** `format_arguments(arguments, is_const)`: `None` stands for Ruby's `nil`. */
  function FormatArguments(arguments: seq<Entry>, isConst: bool): Result<Option<string>>
  {
    if arguments == [] then Ok(None)
    else
      var parts :- ValueFormatter.FormatMembers(arguments, isConst);
      Ok(Some("(" + Text.Join(parts, ", ") + ")"))
  }

  /** The clause is absent exactly when there are no arguments, and it is never `()`. */
  lemma AbsentIffEmpty(arguments: seq<Entry>, isConst: bool)
    ensures FormatArguments(arguments, isConst) == Ok(None) <==> arguments == []
    ensures FormatArguments(arguments, isConst) != Ok(Some("()"))
  {
    if arguments != [] {
      var r := ValueFormatter.FormatMembers(arguments, isConst);
      if r.Ok? {
        assert |r.value| > 0;
        Text.JoinStartsWithFirst(r.value, ", ");
        var first := r.value[0];
        assert ValueFormatter.FormatMember(arguments[0], isConst).Ok?;
        assert first == arguments[0].0 + ": " + ValueFormatter.FormatValue(arguments[0].1, isConst).value;
      }
    }
  }

  /**
   * A non-empty argument map renders as the same map would as an input object, with the
   * braces replaced by parentheses; so the pairs keep the map's order, and the map fails exactly
   * when the object would.
   */
  lemma AsInputObject(arguments: seq<Entry>, isConst: bool)
    requires arguments != []
    ensures FormatArguments(arguments, isConst).Ok? <==> ValueFormatter.FormatValue(Hash(arguments), isConst).Ok?
    ensures FormatArguments(arguments, isConst).Err? ==>
      FormatArguments(arguments, isConst).error == ValueFormatter.FormatValue(Hash(arguments), isConst).error
    ensures FormatArguments(arguments, isConst).Ok? ==>
      var literal := ValueFormatter.FormatValue(Hash(arguments), isConst).value;
      FormatArguments(arguments, isConst).value == Some("(" + literal[1..|literal| - 1] + ")")
  {
  }

  /** `is_const` reaches every argument value: a variable anywhere in the arguments is refused in a constant context. */
  lemma ConstContextRefusesVariables(arguments: seq<Entry>)
    requires exists i | 0 <= i < |arguments| :: ValueFormatter.HasVariable(arguments[i].1)
    ensures FormatArguments(arguments, true).Err?
  {
    ValueFormatter.FormatSucceedsIff(Hash(arguments), true);
    var i :| 0 <= i < |arguments| && ValueFormatter.HasVariable(arguments[i].1);
    assert ValueFormatter.MemberHasVariable(arguments[i]);
  }
}

module ArgumentMixin {
  import opened Wrappers
  import opened Values
  import Text
  import ValueMixin
  import ArgumentFormatter

  /** `__arguments_to_s(arguments)`: the empty string when there are no arguments. */
  function ArgumentsToS(arguments: seq<Entry>): Result<string>
  {
    if arguments == [] then Ok("")
    else
      var parts :- ValueMixin.MembersToS(arguments);
      Ok("(" + Text.Join(parts, ", ") + ")")
  }

  /**
   * The mixin renders what the formatter renders outside a constant context, with the absent
   * clause as the empty string instead of `nil`.
   */
  lemma AgreesWithFormatter(arguments: seq<Entry>)
    ensures ArgumentsToS(arguments) ==
      match ArgumentFormatter.FormatArguments(arguments, false)
      case Ok(None) => Ok("")
      case Ok(Some(text)) => Ok(text)
      case Err(e) => Err(e)
  {
    ValueMixin.MembersAgree(arguments);
  }
}

/**
 * The directive codecs (section 2.12 of the GraphQL specification) of the earlier generation:
 * `format_directives` of the formatter and `__directives_to_s` of the `Directives` mixin. A
 * directive is given as a Hash (`{name:, args:}`) or an Array (`[name, args]`).
 */
module DirectiveFormatter {
  import opened Wrappers
  import opened Values
  import Text
  import ArgumentFormatter
  import ValueFormatter

  const NameRequired := "Directive name must be specified"

  /** `format_directive_name(name)`: the name with exactly the one `@` it needs. */
  function DirectiveName(name: string): (r: string)
    ensures |r| > 0 && r[0] == '@'
    ensures r == name || r == "@" + name
    ensures r == name <==> (|name| > 0 && name[0] == '@')
  {
    if |name| > 0 && name[0] == '@' then name else "@" + name
  }

  /**
   * The argument map a directive was given. `format_arguments` calls `empty?` and then `map` on
   * it: a Hash is read as its pairs, and any other value for which `empty?` holds renders
   * nothing; any other value fails.
   */
  function ArgumentsOf(v: Value): (r: Result<seq<Entry>>)
    ensures r.Ok? <==> v.Hash? || Blank(v)
    ensures v.Hash? ==> r == Ok(v.entries)
    ensures r.Ok? && !v.Hash? ==> r.value == []
  {
    if v.Hash? then Ok(v.entries)
    else if Blank(v) then Ok([])
    else Err(RubyError("arguments are not a Hash"))
  }

  /** The arguments clause, or nothing for an empty map. */
  function ArgumentsClause(v: Value, isConst: bool): Result<Option<string>>
  {
    var arguments :- ArgumentsOf(v);
    ArgumentFormatter.FormatArguments(arguments, isConst)
  }

  /** `format_directive_from_hash(directive, is_const)`. */
  function FromHash(directive: seq<Entry>, isConst: bool): Result<string>
  {
    var name :- RequiredText(Get(directive, "name"), NameRequired);
    var clause :- if HasKey(directive, "args") then ArgumentsClause(Get(directive, "args"), isConst) else Ok(None);
    Ok(Text.Join(Text.Compact([Some(DirectiveName(name)), clause]), ""))
  }

  /** `format_directive_from_array(directive, is_const)`. */
  function FromArray(directive: seq<Value>, isConst: bool): Result<string>
  {
    var name :- RequiredText(At(directive, 0), NameRequired);
    var clause :- if |directive| > 1 then ArgumentsClause(At(directive, 1), isConst) else Ok(None);
    Ok(Text.Join(Text.Compact([Some(DirectiveName(name)), clause]), ""))
  }

  /** `format_directive(directive, is_const)`. */
  function FormatDirective(directive: Value, isConst: bool): Result<string>
  {
    match directive
    case Hash(entries) => FromHash(entries, isConst)
    case List(items) => FromArray(items, isConst)
    case _ => Err(DslError("Unsupported directive type"))
  }

  function FormatEach(directives: seq<Value>, isConst: bool): (r: Result<seq<string>>)
    ensures r.Ok? ==> |r.value| == |directives|
  {
    if directives == [] then Ok([])
    else
      var first :- FormatDirective(directives[0], isConst);
      var rest :- FormatEach(directives[1..], isConst);
      Ok([first] + rest)
  }

  /** `format_directives(directives, is_const)`: `None` stands for `nil`. */
  function FormatDirectives(directives: seq<Value>, isConst: bool): Result<Option<string>>
  {
    if directives == [] then Ok(None)
    else
      var parts :- FormatEach(directives, isConst);
      Ok(Some(Text.Join(parts, " ")))
  }

  /** The `@` normalisation is idempotent, and a name without `@` gains exactly one. */
  lemma DirectiveNameIdempotent(name: string)
    ensures DirectiveName(DirectiveName(name)) == DirectiveName(name)
    ensures name == [] || name[0] != '@' ==> DirectiveName(name)[1..] == name
  {
  }

  /** The rendering of one directive, by cases: the name, then the arguments clause when there is one. */
  lemma Rendering(name: string, clause: Option<string>)
    ensures Text.Join(Text.Compact([Some(DirectiveName(name)), clause]), "") ==
      DirectiveName(name) + (if clause.Some? then clause.value else "")
  {
    assert [Some(DirectiveName(name)), clause] == [Some(DirectiveName(name))] + [clause];
    Text.CompactSnoc([Some(DirectiveName(name))], clause);
    Text.JoinSnoc([DirectiveName(name)], if clause.Some? then clause.value else "", "");
  }

  /** Both shapes say the same thing: `{name: n, args: a}` is `[n, a]`, and `{name: n}` is `[n]`. */
  lemma ShapesAgree(name: Value, arguments: Value, isConst: bool)
    ensures FromHash([("name", name), ("args", arguments)], isConst) == FromArray([name, arguments], isConst)
    ensures FromHash([("name", name)], isConst) == FromArray([name], isConst)
  {
    var h := [("name", name), ("args", arguments)];
    assert HasKey(h, "args") by { assert h[1].0 == "args"; }
    assert !HasKey([("name", name)], "args");
  }

  /** A nil or empty name, or none at all, is refused in both shapes before the arguments are looked at. */
  lemma NameIsRequired(directive: seq<Entry>, items: seq<Value>, isConst: bool)
    ensures !HasKey(directive, "name") ==> FromHash(directive, isConst) == Err(DslError(NameRequired))
    ensures Lookup(directive, "name") == Some(Nil) ==> FromHash(directive, isConst) == Err(DslError(NameRequired))
    ensures Get(directive, "name").Nil? || Blank(Get(directive, "name")) ==> FromHash(directive, isConst) == Err(DslError(NameRequired))
    ensures items == [] ==> FromArray(items, isConst) == Err(DslError(NameRequired))
    ensures |items| > 0 && (items[0].Nil? || Blank(items[0])) ==> FromArray(items, isConst) == Err(DslError(NameRequired))
  {
  }

  /**
   * The arguments clause appears exactly when an `:args` key (Hash) or a second element (Array)
   * is present and the map is not empty; a present but empty map adds nothing.
   */
  lemma ArgumentsOnlyWhenGiven(directive: seq<Entry>, isConst: bool)
    requires RequiredText(Get(directive, "name"), NameRequired).Ok?
    ensures var name := RequiredText(Get(directive, "name"), NameRequired).value;
      !HasKey(directive, "args") ==> FromHash(directive, isConst) == Ok(DirectiveName(name))
    ensures var name := RequiredText(Get(directive, "name"), NameRequired).value;
      Lookup(directive, "args") == Some(Hash([])) ==> FromHash(directive, isConst) == Ok(DirectiveName(name))
    ensures var name := RequiredText(Get(directive, "name"), NameRequired).value;
      forall arguments: seq<Entry> | arguments != [] && Lookup(directive, "args") == Some(Hash(arguments)) ::
        FromHash(directive, isConst).Ok? ==>
          FromHash(directive, isConst).value ==
            DirectiveName(name) + ArgumentFormatter.FormatArguments(arguments, isConst).value.value
  {
    var name := RequiredText(Get(directive, "name"), NameRequired).value;
    Rendering(name, None);
    assert DirectiveName(name) + "" == DirectiveName(name);
    forall arguments: seq<Entry> | arguments != [] && Lookup(directive, "args") == Some(Hash(arguments))
      ensures FromHash(directive, isConst).Ok? ==>
        FromHash(directive, isConst).value ==
          DirectiveName(name) + ArgumentFormatter.FormatArguments(arguments, isConst).value.value
    {
      ArgumentFormatter.AbsentIffEmpty(arguments, isConst);
      var clause := ArgumentFormatter.FormatArguments(arguments, isConst);
      if clause.Ok? {
        Rendering(name, clause.value);
      }
    }
  }

  /** Every rendered directive starts with `@`; a directive that is neither a Hash nor an Array is refused. */
  lemma DirectiveStartsWithAt(directive: Value, isConst: bool)
    ensures FormatDirective(directive, isConst).Ok? ==>
      |FormatDirective(directive, isConst).value| > 0 && FormatDirective(directive, isConst).value[0] == '@'
    ensures FormatDirective(directive, isConst).Ok? ==> directive.Hash? || directive.List?
    ensures !directive.Hash? && !directive.List? ==> FormatDirective(directive, isConst) == Err(DslError("Unsupported directive type"))
  {
    match directive
    case Hash(entries) =>
      var r := FromHash(entries, isConst);
      if r.Ok? {
        var name := RequiredText(Get(entries, "name"), NameRequired).value;
        var clause := if HasKey(entries, "args") then ArgumentsClause(Get(entries, "args"), isConst) else Ok(None);
        Rendering(name, clause.value);
      }
    case List(items) =>
      var r := FromArray(items, isConst);
      if r.Ok? {
        var name := RequiredText(At(items, 0), NameRequired).value;
        var clause := if |items| > 1 then ArgumentsClause(At(items, 1), isConst) else Ok(None);
        Rendering(name, clause.value);
      }
    case _ =>
  }

  /** The list is absent exactly when empty, and appending a directive appends its rendering after one space. */
  lemma DirectivesAppend(directives: seq<Value>, d: Value, isConst: bool)
    ensures FormatDirectives(directives, isConst) == Ok(None) <==> directives == []
    ensures FormatDirectives([d], isConst).Ok? ==> FormatDirectives([d], isConst).value == Some(FormatDirective(d, isConst).value)
    ensures directives != [] && FormatDirectives(directives + [d], isConst).Ok? ==>
      FormatDirectives(directives, isConst).Ok? && FormatDirective(d, isConst).Ok? &&
      FormatDirectives(directives + [d], isConst).value ==
        Some(FormatDirectives(directives, isConst).value.value + " " + FormatDirective(d, isConst).value)
  {
    EachSnoc(directives, d, isConst);
    var r := FormatEach(directives + [d], isConst);
    if directives != [] && r.Ok? {
      Text.JoinSnoc(FormatEach(directives, isConst).value, FormatDirective(d, isConst).value, " ");
    }
  }

  lemma {:induction false} EachSnoc(directives: seq<Value>, d: Value, isConst: bool)
    ensures FormatEach(directives + [d], isConst).Ok? <==>
      FormatEach(directives, isConst).Ok? && FormatDirective(d, isConst).Ok?
    ensures FormatEach(directives + [d], isConst).Ok? ==>
      FormatEach(directives + [d], isConst).value ==
        FormatEach(directives, isConst).value + [FormatDirective(d, isConst).value]
  {
    if directives != [] {
      assert (directives + [d])[1..] == directives[1..] + [d];
      EachSnoc(directives[1..], d, isConst);
    }
  }

  /** `is_const` reaches the directive's arguments: a variable there is refused in a constant context. */
  lemma ConstContextRefusesVariables(name: string, arguments: seq<Entry>)
    requires name != ""
    requires exists i | 0 <= i < |arguments| :: ValueFormatter.HasVariable(arguments[i].1)
    ensures FormatDirective(List([Sym(name), Hash(arguments)]), true).Err?
    ensures FormatDirective(Hash([("name", Sym(name)), ("args", Hash(arguments))]), true).Err?
  {
    ArgumentFormatter.ConstContextRefusesVariables(arguments);
    ShapesAgree(Sym(name), Hash(arguments), true);
  }
}

module DirectiveMixin {
  import opened Wrappers
  import opened Values
  import Text
  import ArgumentFormatter
  import DirectiveFormatter

  /** `__directive_name_to_s(name)`. */
  function DirectiveNameToS(name: string): string
  {
    if |name| > 0 && name[0] == '@' then name else "@" + name
  }

  /**
   * `__arguments_to_s(arguments, is_const)` as this mixin calls it: the arguments rendered in the
   * given context, with an empty map giving the empty string.
   */
  function ArgumentsToS(v: Value, isConst: bool): Result<string>
  {
    var arguments :- DirectiveFormatter.ArgumentsOf(v);
    var clause :- ArgumentFormatter.FormatArguments(arguments, isConst);
    Ok(if clause.Some? then clause.value else "")
  }

  /** The element `result << __arguments_to_s(...)` pushes: a string, never `nil`. */
  function SomeArguments(v: Value, isConst: bool): Result<Option<string>>
  {
    var text :- ArgumentsToS(v, isConst);
    Ok(Some(text))
  }

  /** `__directive_as_hash_to_s(directive, is_const)`. */
  function HashToS(directive: seq<Entry>, isConst: bool): Result<string>
  {
    var name :- RequiredText(Get(directive, "name"), DirectiveFormatter.NameRequired);
    var clause :- if HasKey(directive, "args") then SomeArguments(Get(directive, "args"), isConst) else Ok(None);
    Ok(Text.Join(Text.Compact([Some(DirectiveNameToS(name)), clause]), ""))
  }

  /** `__directive_as_array_to_s(directive, is_const)`. */
  function ArrayToS(directive: seq<Value>, isConst: bool): Result<string>
  {
    var name :- RequiredText(At(directive, 0), DirectiveFormatter.NameRequired);
    var clause :- if |directive| > 1 then SomeArguments(At(directive, 1), isConst) else Ok(None);
    Ok(Text.Join(Text.Compact([Some(DirectiveNameToS(name)), clause]), ""))
  }

  /** `__directive_to_s(directive, is_const)`. */
  function DirectiveToS(directive: Value, isConst: bool): Result<string>
  {
    match directive
    case Hash(entries) => HashToS(entries, isConst)
    case List(items) => ArrayToS(items, isConst)
    case _ => Err(DslError("Unsupported directive type"))
  }

  function EachToS(directives: seq<Value>, isConst: bool): Result<seq<string>>
  {
    if directives == [] then Ok([])
    else
      var first :- DirectiveToS(directives[0], isConst);
      var rest :- EachToS(directives[1..], isConst);
      Ok([first] + rest)
  }

  /** `__directives_to_s(directives, is_const)`. */
  function DirectivesToS(directives: seq<Value>, isConst: bool): Result<Option<string>>
  {
    if directives == [] then Ok(None)
    else
      var parts :- EachToS(directives, isConst);
      Ok(Some(Text.Join(parts, " ")))
  }

  /** A name normalises as in the formatter. */
  lemma NameAgrees(name: string)
    ensures DirectiveNameToS(name) == DirectiveFormatter.DirectiveName(name)
  {
  }

  /** One directive renders as the formatter renders it, error for error. */
  lemma DirectiveAgrees(directive: Value, isConst: bool)
    ensures DirectiveToS(directive, isConst) == DirectiveFormatter.FormatDirective(directive, isConst)
  {
    match directive
    case Hash(entries) =>
      var r := RequiredText(Get(entries, "name"), DirectiveFormatter.NameRequired);
      if r.Ok? && HasKey(entries, "args") {
        ClauseAgrees(r.value, Get(entries, "args"), isConst);
      }
    case List(items) =>
      var r := RequiredText(At(items, 0), DirectiveFormatter.NameRequired);
      if r.Ok? && |items| > 1 {
        ClauseAgrees(r.value, At(items, 1), isConst);
      }
    case _ =>
  }

  lemma ClauseAgrees(name: string, v: Value, isConst: bool)
    ensures ArgumentsToS(v, isConst).Err? <==> DirectiveFormatter.ArgumentsClause(v, isConst).Err?
    ensures ArgumentsToS(v, isConst).Err? ==> ArgumentsToS(v, isConst).error == DirectiveFormatter.ArgumentsClause(v, isConst).error
    ensures ArgumentsToS(v, isConst).Ok? ==>
      Text.Join(Text.Compact([Some(DirectiveNameToS(name)), Some(ArgumentsToS(v, isConst).value)]), "") ==
      Text.Join(Text.Compact([Some(DirectiveFormatter.DirectiveName(name)), DirectiveFormatter.ArgumentsClause(v, isConst).value]), "")
  {
    var c := DirectiveFormatter.ArgumentsClause(v, isConst);
    if c.Ok? {
      DirectiveFormatter.Rendering(name, c.value);
      DirectiveFormatter.Rendering(name, Some(ArgumentsToS(v, isConst).value));
    }
  }

  /** The whole list renders as the formatter renders it. */
  lemma {:induction false} DirectivesAgree(directives: seq<Value>, isConst: bool)
    ensures DirectivesToS(directives, isConst) == DirectiveFormatter.FormatDirectives(directives, isConst)
  {
    EachAgrees(directives, isConst);
  }

  lemma {:induction false} EachAgrees(directives: seq<Value>, isConst: bool)
    ensures EachToS(directives, isConst) == DirectiveFormatter.FormatEach(directives, isConst)
  {
    if directives != [] {
      DirectiveAgrees(directives[0], isConst);
      EachAgrees(directives[1..], isConst);
    }
  }
}

/**
 * Directive containers as the current formatter renders them: `@name` followed by the
 * arguments clause, directives separated by one space. The formatter file that does this for
 * containers (lib/graphql/dsl/formatter/directives.rb) is not part of this model; this module
 * follows the renderings its tests state, with the name and argument helpers shared with the
 * earlier formatter.
 */
module ContainerDirectiveFormatter {
  import opened Wrappers
  import opened Values
  import Text
  import DirectiveFormatter

  /** One directive container. */
  function FormatDirective(directive: Directive, isConst: bool): Result<string>
  {
    var clause :- DirectiveFormatter.ArgumentsClause(directive.arguments, isConst);
    Ok(DirectiveFormatter.DirectiveName(directive.name) + (if clause.Some? then clause.value else ""))
  }

  function FormatEach(directives: seq<Directive>, isConst: bool): (r: Result<seq<string>>)
    ensures r.Ok? ==> |r.value| == |directives|
  {
    if directives == [] then Ok([])
    else
      var first :- FormatDirective(directives[0], isConst);
      var rest :- FormatEach(directives[1..], isConst);
      Ok([first] + rest)
  }

  /** The containers are printed one for one and in order; the list fails with the failure of one of them. */
  lemma {:induction false} EachInOrder(directives: seq<Directive>, isConst: bool)
    ensures FormatEach(directives, isConst).Ok? <==>
      forall i | 0 <= i < |directives| :: FormatDirective(directives[i], isConst).Ok?
    ensures FormatEach(directives, isConst).Ok? ==>
      forall i | 0 <= i < |directives| :: FormatDirective(directives[i], isConst) == Ok(FormatEach(directives, isConst).value[i])
    ensures FormatEach(directives, isConst).Err? ==>
      exists i | 0 <= i < |directives| :: FormatDirective(directives[i], isConst) == Err(FormatEach(directives, isConst).error)
  {
    if directives != [] {
      EachInOrder(directives[1..], isConst);
      assert forall i | 1 <= i < |directives| :: directives[i] == directives[1..][i - 1];
    }
  }

  /** A list of directive containers; `None` stands for `nil`. */
  function FormatDirectives(directives: seq<Directive>, isConst: bool): Result<Option<string>>
  {
    if directives == [] then Ok(None)
    else
      var parts :- FormatEach(directives, isConst);
      Ok(Some(Text.Join(parts, " ")))
  }

  /**
   * A container renders as the Array shape `[name, arguments]` it could have been built from
   * renders in the earlier formatter.
   */
  lemma AgreesWithArrayShape(directive: Directive, isConst: bool)
    requires directive.name != ""
    ensures FormatDirective(directive, isConst) ==
      DirectiveFormatter.FormatDirective(List([Sym(directive.name), directive.arguments]), isConst)
  {
    var clause := DirectiveFormatter.ArgumentsClause(directive.arguments, isConst);
    if clause.Ok? {
      DirectiveFormatter.Rendering(directive.name, clause.value);
    }
  }
}

/**
 * The variable-definition codecs (section 2.10 of the GraphQL specification) of the earlier
 * generation: `format_variable_definitions` of the formatter and `__variable_definitions_to_s`
 * of the `VariableDefinitions` mixin. A definition is given as a Symbol or String (the type), a
 * Hash (`{type:, default:, directives:}`) or an Array (`[type, default, directives]`). Defaults
 * and directive arguments are rendered in a constant context.
 */
module ShapeVariableFormatter {
  import opened Wrappers
  import opened Values
  import Text
  import ValueFormatter
  import DirectiveFormatter

  const TypeRequired := "Variable type must be specified"

  /** `format_directives(x, true)` on whatever a definition holds in its directives slot. */
  function DirectivesPart(v: Value): Result<Option<string>>
  {
    if v.List? then DirectiveFormatter.FormatDirectives(v.items, true)
    else if Blank(v) then Ok(None)
    else Err(RubyError("directives are not an Array"))
  }

  /** The `= default` clause, rendered in a constant context. */
  function DefaultPart(v: Value): Result<Option<string>>
  {
    var text :- ValueFormatter.FormatValue(v, true);
    Ok(Some("= " + text))
  }

  /** `format_variable_definition_as_symbol` and `_as_string`: the type itself. */
  function FromText(typeName: string): (r: Result<string>)
    ensures r.Ok? <==> typeName != ""
    ensures r.Ok? ==> r.value == typeName
    ensures r.Err? ==> r.error == DslError(TypeRequired)
  {
    if typeName == "" then Err(DslError(TypeRequired)) else Ok(typeName)
  }

  /** `format_variable_definition_as_hash`. */
  function FromHash(definition: seq<Entry>): Result<string>
  {
    var typeName :- RequiredText(Get(definition, "type"), TypeRequired);
    var default :- if HasKey(definition, "default") then DefaultPart(Get(definition, "default")) else Ok(None);
    var directives :- if HasKey(definition, "directives") then DirectivesPart(Get(definition, "directives")) else Ok(None);
    Ok(Text.Join(Text.Compact([Some(typeName), default, directives]), " "))
  }

  /** `format_variable_definition_as_array`. */
  function FromArray(definition: seq<Value>): Result<string>
  {
    var typeName :- RequiredText(At(definition, 0), TypeRequired);
    var default :- if |definition| > 1 then DefaultPart(At(definition, 1)) else Ok(None);
    var directives :- if |definition| > 2 then DirectivesPart(At(definition, 2)) else Ok(None);
    Ok(Text.Join(Text.Compact([Some(typeName), default, directives]), " "))
  }

  /** `format_variable_definition(variable_definition)`. */
  function FormatDefinition(definition: Value): Result<string>
  {
    match definition
    case Sym(name) => FromText(name)
    case Str(s) => FromText(s)
    case Hash(entries) => FromHash(entries)
    case List(items) => FromArray(items)
    case _ => Err(DslError("Unsupported variable definition type"))
  }

  /** One `$name: definition` pair. */
  function FormatPair(pair: Entry): Result<string>
  {
    var definition :- FormatDefinition(pair.1);
    Ok("$" + pair.0 + ": " + definition)
  }

  function FormatPairs(definitions: seq<Entry>): (r: Result<seq<string>>)
    ensures r.Ok? ==> |r.value| == |definitions|
  {
    if definitions == [] then Ok([])
    else
      var first :- FormatPair(definitions[0]);
      var rest :- FormatPairs(definitions[1..]);
      Ok([first] + rest)
  }

  /** The pairs are printed one for one and in order; the list fails with the failure of one of them. */
  lemma {:induction false} PairsInOrder(definitions: seq<Entry>)
    ensures FormatPairs(definitions).Ok? <==> forall i | 0 <= i < |definitions| :: FormatPair(definitions[i]).Ok?
    ensures FormatPairs(definitions).Ok? ==>
      forall i | 0 <= i < |definitions| :: FormatPair(definitions[i]) == Ok(FormatPairs(definitions).value[i])
    ensures FormatPairs(definitions).Err? ==>
      exists i | 0 <= i < |definitions| :: FormatPair(definitions[i]) == Err(FormatPairs(definitions).error)
  {
    if definitions != [] {
      PairsInOrder(definitions[1..]);
      assert forall i | 1 <= i < |definitions| :: definitions[i] == definitions[1..][i - 1];
    }
  }

  /** `format_variable_definitions(variable_definitions)`: `None` stands for `nil`. */
  function FormatDefinitions(definitions: seq<Entry>): Result<Option<string>>
  {
    if definitions == [] then Ok(None)
    else
      var parts :- FormatPairs(definitions);
      Ok(Some("(" + Text.Join(parts, ", ") + ")"))
  }

  /**
   * Every shape without a type (nil, empty, or missing) is refused with the same message, and a
   * value of no supported shape with its own.
   */
  lemma TypeIsRequired(definition: seq<Entry>, items: seq<Value>, other: Value)
    ensures !(other.Sym? || other.Str? || other.Hash? || other.List?) ==>
      FormatDefinition(other) == Err(DslError("Unsupported variable definition type"))
    ensures FormatDefinition(Sym("")) == Err(DslError(TypeRequired))
    ensures FormatDefinition(Str("")) == Err(DslError(TypeRequired))
    ensures !HasKey(definition, "type") ==> FromHash(definition) == Err(DslError(TypeRequired))
    ensures Lookup(definition, "type") == Some(Nil) ==> FromHash(definition) == Err(DslError(TypeRequired))
    ensures Get(definition, "type").Nil? || Blank(Get(definition, "type")) ==> FromHash(definition) == Err(DslError(TypeRequired))
    ensures items == [] ==> FromArray(items) == Err(DslError(TypeRequired))
    ensures |items| > 0 && (items[0].Nil? || Blank(items[0])) ==> FromArray(items) == Err(DslError(TypeRequired))
  {
  }

  /**
   * The three shapes agree: a bare type is `{type: t}` is `[t]`; `{type: t, default: d}` is
   * `[t, d]`; and `{type: t, default: d, directives: ds}` is `[t, d, ds]`.
   */
  lemma ShapesAgree(t: string, d: Value, ds: Value)
    requires t != ""
    ensures FormatDefinition(Sym(t)) == FromHash([("type", Sym(t))]) == FromArray([Sym(t)])
    ensures FromHash([("type", Sym(t)), ("default", d)]) == FromArray([Sym(t), d])
    ensures FromHash([("type", Sym(t)), ("default", d), ("directives", ds)]) == FromArray([Sym(t), d, ds])
  {
    BareShapesAgree(t);
    DefaultShapesAgree(t, d);
    FullShapesAgree(t, d, ds);
  }

  lemma BareShapesAgree(t: string)
    requires t != ""
    ensures FormatDefinition(Sym(t)) == FromHash([("type", Sym(t))]) == FromArray([Sym(t)])
  {
    Text.JoinPresent(t, None, None);
    assert t + "" + "" == t;
    var h := [("type", Sym(t))];
    assert Get(h, "type") == Sym(t);
    assert !HasKey(h, "default") && !HasKey(h, "directives");
  }

  lemma DefaultShapesAgree(t: string, d: Value)
    requires t != ""
    ensures FromHash([("type", Sym(t)), ("default", d)]) == FromArray([Sym(t), d])
  {
    var h := [("type", Sym(t)), ("default", d)];
    assert h[1].0 == "default";
    assert Get(h, "type") == Sym(t) && Get(h, "default") == d;
    assert HasKey(h, "default") && !HasKey(h, "directives");
  }

  lemma FullShapesAgree(t: string, d: Value, ds: Value)
    requires t != ""
    ensures FromHash([("type", Sym(t)), ("default", d), ("directives", ds)]) == FromArray([Sym(t), d, ds])
  {
    var h := [("type", Sym(t)), ("default", d), ("directives", ds)];
    assert h[1].0 == "default" && h[2].0 == "directives";
    assert Get(h, "type") == Sym(t) && Get(h, "default") == d && Get(h, "directives") == ds;
  }

  /**
   * A definition with a default renders `type = value`, the value in a constant context; so a
   * nil default gives `= null` and a variable default is refused.
   */
  lemma DefaultRendering(t: string, d: Value)
    requires t != ""
    ensures ValueFormatter.FormatValue(d, true).Ok? ==>
      FromArray([Sym(t), d]) == Ok(t + " = " + ValueFormatter.FormatValue(d, true).value)
    ensures FromArray([Sym(t), Nil]) == Ok(t + " = null")
    ensures ValueFormatter.HasVariable(d) ==> FromArray([Sym(t), d]).Err?
  {
    if ValueFormatter.FormatValue(d, true).Ok? {
      DefaultText(t, d, ValueFormatter.FormatValue(d, true).value);
    }
    assert ValueFormatter.FormatValue(Nil, true) == Ok("null");
    DefaultText(t, Nil, "null");
    assert t + " = " + "null" == t + " = null";
    ValueFormatter.FormatSucceedsIff(d, true);
  }

  lemma DefaultText(t: string, d: Value, x: string)
    requires t != ""
    requires ValueFormatter.FormatValue(d, true) == Ok(x)
    ensures FromArray([Sym(t), d]) == Ok(t + " = " + x)
  {
    assert DefaultPart(At([Sym(t), d], 1)) == Ok(Some("= " + x));
    Text.JoinPresent(t, Some("= " + x), None);
    assert t + (" " + ("= " + x)) + "" == t + " = " + x;
  }

  /** With directives, they follow the type (and the default) after one space. */
  lemma DirectivesRendering(t: string, d: Value, ds: seq<Value>)
    requires t != ""
    requires ValueFormatter.FormatValue(d, true).Ok?
    requires DirectiveFormatter.FormatDirectives(ds, true).Ok?
    ensures var dirs := DirectiveFormatter.FormatDirectives(ds, true).value;
      FromArray([Sym(t), d, List(ds)]) ==
        Ok(t + " = " + ValueFormatter.FormatValue(d, true).value + (if dirs.Some? then " " + dirs.value else ""))
  {
    var x := ValueFormatter.FormatValue(d, true).value;
    var dirs := DirectiveFormatter.FormatDirectives(ds, true).value;
    Text.JoinPresent(t, Some("= " + x), dirs);
    assert t + (" " + ("= " + x)) == t + " = " + x;
  }

  /**
   * The clause is absent exactly when there are no definitions; otherwise it is every pair's
   * `$name: definition` text, in order, joined by `, ` between parentheses, and it fails exactly
   * when one pair fails.
   */
  lemma AbsentIffEmpty(definitions: seq<Entry>)
    ensures FormatDefinitions(definitions) == Ok(None) <==> definitions == []
    ensures FormatDefinitions(definitions).Ok? <==>
      forall i | 0 <= i < |definitions| :: FormatPair(definitions[i]).Ok?
    ensures FormatDefinitions(definitions).Ok? && definitions != [] ==>
      var texts := FormatPairs(definitions).value;
      FormatDefinitions(definitions).value == Some("(" + Text.Join(texts, ", ") + ")") &&
      forall i | 0 <= i < |definitions| :: FormatDefinition(definitions[i].1).Ok? &&
        texts[i] == "$" + definitions[i].0 + ": " + FormatDefinition(definitions[i].1).value
  {
    PairsInOrder(definitions);
    var r := FormatPairs(definitions);
    if definitions != [] && r.Ok? {
      PairTexts(definitions, r.value);
    }
  }

  lemma PairTexts(definitions: seq<Entry>, texts: seq<string>)
    requires FormatPairs(definitions) == Ok(texts)
    ensures forall i | 0 <= i < |definitions| ::
      FormatDefinition(definitions[i].1).Ok? && texts[i] == "$" + definitions[i].0 + ": " + FormatDefinition(definitions[i].1).value
  {
    PairsInOrder(definitions);
    forall i | 0 <= i < |definitions|
      ensures FormatDefinition(definitions[i].1).Ok? && texts[i] == "$" + definitions[i].0 + ": " + FormatDefinition(definitions[i].1).value
    {
      PairText(definitions[i], texts[i]);
    }
  }

  lemma PairText(pair: Entry, text: string)
    requires FormatPair(pair) == Ok(text)
    ensures FormatDefinition(pair.1).Ok? && text == "$" + pair.0 + ": " + FormatDefinition(pair.1).value
  {
  }
}

module VariableMixin {
  import opened Wrappers
  import opened Values
  import Text
  import ValueFormatter
  import DirectiveMixin
  import ShapeVariableFormatter

  /** `__directives_to_s(x, true)` on whatever a definition holds in its directives slot. */
  function DirectivesPart(v: Value): Result<Option<string>>
  {
    if v.List? then DirectiveMixin.DirectivesToS(v.items, true)
    else if Blank(v) then Ok(None)
    else Err(RubyError("directives are not an Array"))
  }

  /**
   * The `= default` clause. The mixin passes a constant flag to `__value_to_s`; the model gives
   * the value the constant-context rendering that call asks for.
   */
  function DefaultPart(v: Value): Result<Option<string>>
  {
    var text :- ValueFormatter.FormatValue(v, true);
    Ok(Some("= " + text))
  }

  /** `__variable_definition_as_symbol` and `_as_string`. */
  function AsText(typeName: string): Result<string>
  {
    if typeName == "" then Err(DslError(ShapeVariableFormatter.TypeRequired)) else Ok(typeName)
  }

  /** `__variable_definition_as_hash`. */
  function AsHash(definition: seq<Entry>): Result<string>
  {
    var typeName :- RequiredText(Get(definition, "type"), ShapeVariableFormatter.TypeRequired);
    var default :- if HasKey(definition, "default") then DefaultPart(Get(definition, "default")) else Ok(None);
    var directives :- if HasKey(definition, "directives") then DirectivesPart(Get(definition, "directives")) else Ok(None);
    Ok(Text.Join(Text.Compact([Some(typeName), default, directives]), " "))
  }

  /** `__variable_definition_as_array`. */
  function AsArray(definition: seq<Value>): Result<string>
  {
    var typeName :- RequiredText(At(definition, 0), ShapeVariableFormatter.TypeRequired);
    var default :- if |definition| > 1 then DefaultPart(At(definition, 1)) else Ok(None);
    var directives :- if |definition| > 2 then DirectivesPart(At(definition, 2)) else Ok(None);
    Ok(Text.Join(Text.Compact([Some(typeName), default, directives]), " "))
  }

  /** `__variable_definition_to_s(variable_definition)`. */
  function DefinitionToS(definition: Value): Result<string>
  {
    match definition
    case Sym(name) => AsText(name)
    case Str(s) => AsText(s)
    case Hash(entries) => AsHash(entries)
    case List(items) => AsArray(items)
    case _ => Err(DslError("Unsupported variable definition type"))
  }

  function PairsToS(definitions: seq<Entry>): Result<seq<string>>
  {
    if definitions == [] then Ok([])
    else
      var first :- DefinitionToS(definitions[0].1);
      var rest :- PairsToS(definitions[1..]);
      Ok(["$" + definitions[0].0 + ": " + first] + rest)
  }

  /** `__variable_definitions_to_s(variable_definitions)`. */
  function DefinitionsToS(definitions: seq<Entry>): Result<Option<string>>
  {
    if definitions == [] then Ok(None)
    else
      var parts :- PairsToS(definitions);
      Ok(Some("(" + Text.Join(parts, ", ") + ")"))
  }

  lemma DirectivesPartAgrees(v: Value)
    ensures DirectivesPart(v) == ShapeVariableFormatter.DirectivesPart(v)
  {
    if v.List? {
      DirectiveMixin.DirectivesAgree(v.items, true);
    }
  }

  /** One definition renders as the formatter renders it, error for error. */
  lemma DefinitionAgrees(definition: Value)
    ensures DefinitionToS(definition) == ShapeVariableFormatter.FormatDefinition(definition)
  {
    match definition
    case Hash(entries) => DirectivesPartAgrees(Get(entries, "directives"));
    case List(items) => DirectivesPartAgrees(At(items, 2));
    case _ =>
  }

  /** The whole map renders as the formatter renders it. */
  lemma {:induction false} DefinitionsAgree(definitions: seq<Entry>)
    ensures DefinitionsToS(definitions) == ShapeVariableFormatter.FormatDefinitions(definitions)
  {
    PairsAgree(definitions);
  }

  lemma {:induction false} PairsAgree(definitions: seq<Entry>)
    ensures PairsToS(definitions) == ShapeVariableFormatter.FormatPairs(definitions)
  {
    if definitions != [] {
      DefinitionAgrees(definitions[0].1);
      PairsAgree(definitions[1..]);
    }
  }
}

/**
 * `format_variable_definitions` of the current formatter, over variable-definition containers:
 * `$name: Type`, then `= default` unless the default is `UNDEFINED`, then the directives unless
 * there are none.
 */
module VariableFormatter {
  import opened Wrappers
  import opened Values
  import Text
  import ValueFormatter
  import ContainerDirectiveFormatter
  import ShapeVariableFormatter

  /** `format_variable_definition(variable_definition)`. */
  function FormatDefinition(definition: VariableDefinition): Result<string>
  {
    var default :- if definition.default.Given? then ShapeVariableFormatter.DefaultPart(definition.default.value) else Ok(None);
    var directives :- if definition.directives != [] then ContainerDirectiveFormatter.FormatDirectives(definition.directives, true) else Ok(None);
    Ok(Text.Join(Text.Compact([Some("$" + definition.name + ":"), Some(definition.typeName), default, directives]), " "))
  }

  function FormatEach(definitions: seq<VariableDefinition>): (r: Result<seq<string>>)
    ensures r.Ok? ==> |r.value| == |definitions|
  {
    if definitions == [] then Ok([])
    else
      var first :- FormatDefinition(definitions[0]);
      var rest :- FormatEach(definitions[1..]);
      Ok([first] + rest)
  }

  /** The definitions are printed one for one and in order; the list fails with the failure of one of them. */
  lemma {:induction false} EachInOrder(definitions: seq<VariableDefinition>)
    ensures FormatEach(definitions).Ok? <==> forall i | 0 <= i < |definitions| :: FormatDefinition(definitions[i]).Ok?
    ensures FormatEach(definitions).Ok? ==>
      forall i | 0 <= i < |definitions| :: FormatDefinition(definitions[i]) == Ok(FormatEach(definitions).value[i])
    ensures FormatEach(definitions).Err? ==>
      exists i | 0 <= i < |definitions| :: FormatDefinition(definitions[i]) == Err(FormatEach(definitions).error)
  {
    if definitions != [] {
      EachInOrder(definitions[1..]);
      assert forall i | 1 <= i < |definitions| :: definitions[i] == definitions[1..][i - 1];
    }
  }

  /** `format_variable_definitions(variable_definitions)`: `None` stands for `nil`. */
  function FormatDefinitions(definitions: seq<VariableDefinition>): Result<Option<string>>
  {
    if definitions == [] then Ok(None)
    else
      var parts :- FormatEach(definitions);
      Ok(Some("(" + Text.Join(parts, ", ") + ")"))
  }

  /**
   * A definition is `$name: Type`, then ` = value` exactly when a default was given (a nil
   * default is `= null`), then the directives exactly when there are some.
   */
  lemma Rendering(definition: VariableDefinition)
    requires FormatDefinition(definition).Ok?
    ensures var default := definition.default;
      var directives := ContainerDirectiveFormatter.FormatDirectives(definition.directives, true);
      FormatDefinition(definition).value ==
        "$" + definition.name + ": " + definition.typeName +
        (if default.Given? then " = " + ValueFormatter.FormatValue(default.value, true).value else "") +
        (if definition.directives != [] then " " + directives.value.value else "")
  {
    var literal := if definition.default.Given? then Some(ValueFormatter.FormatValue(definition.default.value, true).value) else None;
    var directives := if definition.directives != [] then ContainerDirectiveFormatter.FormatDirectives(definition.directives, true) else Ok(None);
    DefinitionText(definition.name, definition.typeName, literal, directives.value);
  }

  /** `$name: Type`, then `= literal` and the directives when present, all space separated. */
  lemma DefinitionText(name: string, typeName: string, literal: Option<string>, directives: Option<string>)
    ensures Text.Join(Text.Compact([Some("$" + name + ":"), Some(typeName),
        if literal.Some? then Some("= " + literal.value) else None, directives]), " ") ==
      "$" + name + ": " + typeName + (if literal.Some? then " = " + literal.value else "") +
      (if directives.Some? then " " + directives.value else "")
  {
    var default := if literal.Some? then Some("= " + literal.value) else None;
    PartsText("$" + name + ":", typeName, default, directives);
    assert "$" + name + ":" + " " + typeName == "$" + name + ": " + typeName;
    if literal.Some? {
      assert " " + default.value == " = " + literal.value;
    }
  }

  /** Four space-separated parts, the last two optional. */
  lemma PartsText(head: string, typeName: string, default: Option<string>, directives: Option<string>)
    ensures Text.Join(Text.Compact([Some(head), Some(typeName), default, directives]), " ") ==
      head + " " + typeName + (if default.Some? then " " + default.value else "") +
      (if directives.Some? then " " + directives.value else "")
  {
    var parts := [Some(typeName), default, directives];
    assert [Some(head), Some(typeName), default, directives] == [Some(head)] + parts;
    CompactCons(head, parts);
    Text.JoinPresent(typeName, default, directives);
    JoinCons(head, Text.Compact(parts), " ");
  }

  lemma CompactCons(x: string, parts: seq<Option<string>>)
    ensures Text.Compact([Some(x)] + parts) == [x] + Text.Compact(parts)
  {
    assert ([Some(x)] + parts)[1..] == parts;
  }

  lemma JoinCons(x: string, parts: seq<string>, sep: string)
    requires parts != []
    ensures Text.Join([x] + parts, sep) == x + sep + Text.Join(parts, sep)
  {
    assert ([x] + parts)[1..] == parts;
  }

  /** A default holding a variable is refused: defaults are constant. */
  lemma DefaultIsConstant(definition: VariableDefinition)
    requires definition.default.Given? && ValueFormatter.HasVariable(definition.default.value)
    ensures FormatDefinition(definition).Err?
  {
    ValueFormatter.FormatSucceedsIff(definition.default.value, true);
  }

  /**
   * The clause is absent exactly when there are no definitions; otherwise it is every
   * definition's text, in order, joined by `, ` between parentheses, and it fails exactly when one
   * definition fails, with that definition's error.
   */
  lemma ClauseText(definitions: seq<VariableDefinition>)
    ensures FormatDefinitions(definitions) == Ok(None) <==> definitions == []
    ensures FormatDefinitions(definitions).Ok? <==>
      forall i | 0 <= i < |definitions| :: FormatDefinition(definitions[i]).Ok?
    ensures FormatDefinitions(definitions).Err? ==>
      exists i | 0 <= i < |definitions| :: FormatDefinition(definitions[i]) == Err(FormatDefinitions(definitions).error)
    ensures FormatDefinitions(definitions).Ok? && definitions != [] ==>
      FormatEach(definitions).Ok? &&
      FormatDefinitions(definitions).value == Some("(" + Text.Join(FormatEach(definitions).value, ", ") + ")") &&
      forall i | 0 <= i < |definitions| :: FormatDefinition(definitions[i]) == Ok(FormatEach(definitions).value[i])
  {
    EachInOrder(definitions);
  }

  /** The clause is absent exactly when there are no definitions, and definitions keep their order. */
  lemma {:induction false} AbsentIffEmptyInOrder(definitions: seq<VariableDefinition>, d: VariableDefinition)
    ensures FormatDefinitions(definitions) == Ok(None) <==> definitions == []
    ensures FormatEach(definitions + [d]).Ok? ==>
      FormatEach(definitions).Ok? && FormatDefinition(d).Ok? &&
      FormatEach(definitions + [d]).value == FormatEach(definitions).value + [FormatDefinition(d).value]
  {
    if definitions != [] {
      assert (definitions + [d])[1..] == definitions[1..] + [d];
      AbsentIffEmptyInOrder(definitions[1..], d);
    }
  }
}

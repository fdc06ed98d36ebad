/**
 * The directive container (`Directive`, identical constructors in both generations) and the
 * variable-definition container of the current generation, with the `from` normalisers that turn
 * the caller's shapes into containers.
 */
module DirectiveContainer {
  import opened Wrappers
  import opened Values

  /** The constructor's message for a missing name, as written: it speaks of a variable. */
  const WrittenNameRequired := "Variable name must be specified"

  /** The message the constructor evidently means. */
  const NameRequired := "Directive name must be specified"

  /** `Directive.new(name, arguments)` as written. */
  function NewAsWritten(name: Value, arguments: Value): (r: Result<Directive>)
    ensures r.Ok? <==> RequiredText(name, WrittenNameRequired).Ok?
  {
    var text :- RequiredText(name, WrittenNameRequired);
    Ok(Directive(text, arguments))
  }

  /** `Directive.new(name, arguments)`, reporting a missing name as a directive's. */
  function New(name: Value, arguments: Value): (r: Result<Directive>)
    ensures r.Ok? <==> ((name.Sym? || name.Str?) && TextOf(name) != "")
    ensures r.Ok? ==> r.value == Directive(TextOf(name), arguments)
    ensures (name.Nil? || Blank(name)) <==> r == Err(DslError(NameRequired))
  {
    var text :- RequiredText(name, NameRequired);
    Ok(Directive(text, arguments))
  }

  /** The as-written constructor reports a directive without a name as a missing variable name. */
  lemma WrongMessageWitness()
    ensures NewAsWritten(Nil, Hash([])) == Err(DslError("Variable name must be specified"))
    ensures New(Nil, Hash([])) == Err(DslError("Directive name must be specified"))
  {
  }

  /** The two constructors differ only in that message. */
  lemma NewDiffersOnlyInMessage(name: Value, arguments: Value)
    ensures NewAsWritten(name, arguments).Ok? <==> New(name, arguments).Ok?
    ensures New(name, arguments).Ok? ==> NewAsWritten(name, arguments) == New(name, arguments)
    ensures New(name, arguments) == Err(DslError(NameRequired)) <==>
      NewAsWritten(name, arguments) == Err(DslError(WrittenNameRequired))
  {
  }

  /** `from_hash` of the earlier generation: `:name`, and `:args` with `{}` when absent. */
  function LegacyFromHash(hash: seq<Entry>): Result<Directive>
  {
    New(Get(hash, "name"), Fetch(hash, "args", Hash([])))
  }

  /** `from_array` of the earlier generation: `[name, args]`, with `{}` when there is no second element. */
  function LegacyFromArray(items: seq<Value>): Result<Directive>
  {
    New(At(items, 0), FetchAt(items, 1, Hash([])))
  }

  /** `Directive.from(value)` of the earlier generation: a container, a Hash or an Array. */
  function LegacyFrom(v: Value): Result<Directive>
  {
    match v
    case DirectiveValue(d) => Ok(d)
    case Hash(entries) => LegacyFromHash(entries)
    case List(items) => LegacyFromArray(items)
    case _ => Err(DslError("Unsupported format of directive"))
  }

  /** `Directive.from(value)` of the current generation: a container, or a Symbol or String naming the directive. */
  function From(v: Value): Result<Directive>
  {
    match v
    case DirectiveValue(d) => Ok(d)
    case Sym(_) => New(v, Hash([]))
    case Str(_) => New(v, Hash([]))
    case _ => Err(DslError("Unsupported format of directive"))
  }

  /** The Hash shape that describes a container. */
  function AsHash(d: Directive): Value
  {
    Hash([("name", Str(d.name)), ("args", d.arguments)])
  }

  /**
   * Normalising is idempotent in both generations: a container passes through unchanged; and
   * a value of no accepted shape is refused.
   */
  lemma FromIdempotent(v: Value)
    ensures LegacyFrom(v).Ok? ==> LegacyFrom(DirectiveValue(LegacyFrom(v).value)) == LegacyFrom(v)
    ensures From(v).Ok? ==> From(DirectiveValue(From(v).value)) == From(v)
    ensures !(v.DirectiveValue? || v.Hash? || v.List?) ==> LegacyFrom(v) == Err(DslError("Unsupported format of directive"))
  {
  }

  /** A container with a name survives the trip through its Hash shape and back. */
  lemma HashShapeRoundTrip(d: Directive)
    requires d.name != ""
    ensures LegacyFrom(AsHash(d)) == Ok(d)
  {
    var h := [("name", Str(d.name)), ("args", d.arguments)];
    assert h[1].0 == "args";
  }

  /** Both shapes give the same container, and arguments default to `{}` in both. */
  lemma LegacyShapesAgree(name: Value, arguments: Value)
    ensures LegacyFrom(Hash([("name", name), ("args", arguments)])) == LegacyFrom(List([name, arguments]))
    ensures LegacyFrom(Hash([("name", name)])) == LegacyFrom(List([name])) == New(name, Hash([]))
  {
    var h := [("name", name), ("args", arguments)];
    assert h[1].0 == "args";
  }

  /** The current `from` names a directive by a Symbol or String, with no arguments, and refuses every other shape. */
  lemma FromNamesOnly(v: Value)
    ensures (v.Sym? || v.Str?) && TextOf(v) != "" ==> From(v) == Ok(Directive(TextOf(v), Hash([])))
    ensures v.Hash? || v.List? ==> From(v) == Err(DslError("Unsupported format of directive"))
  {
  }
}

module VariableDefinitionContainer {
  import opened Wrappers
  import opened Values
  import DirectiveContainer

  const NameRequired := "Variable name must be specified"
  const TypeRequired := "Variable type must be specified"

  /** `directives.map { |directive| Directive.from(directive) }`, stopping at the first failure. */
  function DirectivesFrom(items: seq<Value>): (r: Result<seq<Directive>>)
    ensures r.Ok? ==> |r.value| == |items|
    ensures r.Ok? ==> forall i | 0 <= i < |items| :: DirectiveContainer.From(items[i]) == Ok(r.value[i])
    ensures r.Err? <==> exists i | 0 <= i < |items| :: DirectiveContainer.From(items[i]).Err?
  {
    if items == [] then Ok([])
    else
      var first :- DirectiveContainer.From(items[0]);
      var rest :- DirectivesFrom(items[1..]);
      assert forall i | 1 <= i < |items| :: items[i] == items[1..][i - 1];
      Ok([first] + rest)
  }

  /** `VariableDefinition.new(name, type, default, directives)`: the name is checked first, then the type. */
  function New(name: Value, typeName: Value, default: Default, directives: Value): (r: Result<VariableDefinition>)
    ensures RequiredText(name, NameRequired).Err? ==> r == RequiredText(name, NameRequired).PropagateFailure()
    ensures RequiredText(name, NameRequired).Ok? && RequiredText(typeName, TypeRequired).Err? ==>
      r == RequiredText(typeName, TypeRequired).PropagateFailure()
    ensures r.Ok? ==> RequiredText(name, NameRequired) == Ok(r.value.name)
    ensures r.Ok? ==> RequiredText(typeName, TypeRequired) == Ok(r.value.typeName) && r.value.default == default
    ensures r.Ok? && directives.List? ==> DirectivesFrom(directives.items) == Ok(r.value.directives)
    ensures r.Ok? ==> directives.List? || directives == Hash([])
    ensures r.Ok? && directives.Hash? ==> r.value.directives == []
    ensures RequiredText(name, NameRequired).Ok? && RequiredText(typeName, TypeRequired).Ok? && directives.List? ==>
      (r.Ok? <==> DirectivesFrom(directives.items).Ok?) &&
      (r.Err? ==> r == DirectivesFrom(directives.items).PropagateFailure())
    ensures RequiredText(name, NameRequired).Ok? && RequiredText(typeName, TypeRequired).Ok? && directives.Hash? ==>
      (r.Ok? <==> directives.entries == [])
  {
    var n :- RequiredText(name, NameRequired);
    var t :- RequiredText(typeName, TypeRequired);
    var ds :- DirectivesOf(directives);
    Ok(VariableDefinition(n, t, default, ds))
  }

  /**
   * `directives.map { … }` on whatever the directives slot holds. An Array is normalised element
   * by element; a Hash maps to its `[key, value]` pairs, which `from` refuses, so only `{}` passes.
   */
  function DirectivesOf(directives: Value): Result<seq<Directive>>
  {
    match directives
    case List(items) => DirectivesFrom(items)
    case Hash(entries) => if entries == [] then Ok([]) else Err(DslError("Unsupported format of directive"))
    case _ => Err(RubyError("directives do not respond to 'map'"))
  }

  /** A value of the `default` slot read with `fetch`: present means given, absent means `UNDEFINED`. */
  function DefaultOf(v: Option<Value>): Default
  {
    match v
    case Some(x) => Given(x)
    case None => Undefined
  }

  /** `from_hash(name, hash)`: `:type`, `:default` (else `UNDEFINED`), `:directives` (else `[]`). */
  function FromHash(name: Value, hash: seq<Entry>): Result<VariableDefinition>
  {
    New(name, Get(hash, "type"), DefaultOf(Lookup(hash, "default")), Fetch(hash, "directives", List([])))
  }

  /** `from_array(name, array)`: positions 0, 1 (else `UNDEFINED`) and 2 (else `[]`). */
  function FromArray(name: Value, items: seq<Value>): Result<VariableDefinition>
  {
    New(name, At(items, 0), if |items| > 1 then Given(items[1]) else Undefined, FetchAt(items, 2, List([])))
  }

  /** `VariableDefinition.from(name, value)`. */
  function From(name: Value, v: Value): Result<VariableDefinition>
  {
    match v
    case VariableDefinitionValue(d) => Ok(d)
    case Sym(_) => New(name, v, Undefined, List([]))
    case Str(_) => New(name, v, Undefined, List([]))
    case Hash(entries) => FromHash(name, entries)
    case List(items) => FromArray(name, items)
    case _ => Err(DslError("Unsupported format of variable definition"))
  }

  /** Normalising is idempotent: a container passes through unchanged; a value of no accepted shape is refused. */
  lemma FromIdempotent(name: Value, v: Value)
    ensures From(name, v).Ok? ==> From(name, VariableDefinitionValue(From(name, v).value)) == From(name, v)
    ensures !(v.VariableDefinitionValue? || v.Sym? || v.Str? || v.Hash? || v.List?) ==>
      From(name, v) == Err(DslError("Unsupported format of variable definition"))
  {
  }

  /** A bare type gives that type with no default (`UNDEFINED`, not `nil`) and no directives. */
  lemma FromType(name: string, typeName: string)
    requires name != "" && typeName != ""
    ensures From(Sym(name), Sym(typeName)) == Ok(VariableDefinition(name, typeName, Undefined, []))
    ensures From(Sym(name), Str(typeName)) == Ok(VariableDefinition(name, typeName, Undefined, []))
  {
  }

  /**
   * The Hash and Array shapes read the same three slots with the same fallbacks; and a nil default
   * is kept as given, distinct from no default at all.
   */
  lemma ShapesAgree(name: Value, t: Value, d: Value, ds: Value)
    ensures From(name, Hash([("type", t)])) == From(name, List([t]))
    ensures From(name, Hash([("type", t), ("default", d)])) == From(name, List([t, d]))
    ensures From(name, Hash([("type", t), ("default", d), ("directives", ds)])) == From(name, List([t, d, ds]))
    ensures From(name, List([t, Nil])).Ok? ==> From(name, List([t, Nil])).value.default == Given(Nil)
    ensures From(name, List([t])).Ok? ==> From(name, List([t])).value.default == Undefined
  {
    TypeOnlyAgrees(name, t);
    TypeAndDefaultAgree(name, t, d);
    AllSlotsAgree(name, t, d, ds);
  }

  lemma TypeOnlyAgrees(name: Value, t: Value)
    ensures From(name, Hash([("type", t)])) == From(name, List([t]))
  {
    var h := [("type", t)];
    assert Lookup(h, "default") == None;
    assert Fetch(h, "directives", List([])) == List([]);
  }

  lemma TypeAndDefaultAgree(name: Value, t: Value, d: Value)
    ensures From(name, Hash([("type", t), ("default", d)])) == From(name, List([t, d]))
  {
    var h := [("type", t), ("default", d)];
    assert Lookup(h, "default") == Some(d);
    assert Fetch(h, "directives", List([])) == List([]);
  }

  lemma AllSlotsAgree(name: Value, t: Value, d: Value, ds: Value)
    ensures From(name, Hash([("type", t), ("default", d), ("directives", ds)])) == From(name, List([t, d, ds]))
  {
    var h := [("type", t), ("default", d), ("directives", ds)];
    assert Get(h, "type") == t;
    assert Lookup(h, "default") == Some(d);
    assert h[1..][1..] == [("directives", ds)];
    assert Lookup(h[1..][1..], "directives") == Some(ds);
    assert Fetch(h, "directives", List([])) == ds;
  }

  /** The name is checked before the type, and each missing one is reported by its own message. */
  lemma NameThenType(name: Value, t: Value)
    ensures From(Nil, t).Err? && (t.Sym? || t.Str? || t.Hash? || t.List?) ==> From(Nil, t) == Err(DslError(NameRequired))
    ensures name.Sym? && name.name != "" ==> From(name, Sym("")) == Err(DslError(TypeRequired))
    ensures name.Sym? && name.name != "" ==> From(name, List([])) == Err(DslError(TypeRequired))
  {
  }
}

/**
 * Normalising into containers and then rendering agrees with rendering the caller's shapes
 * directly: the current formatter works on containers, the earlier one on shapes.
 */
module ContainerRendering {
  import opened Wrappers
  import opened Values
  import Text
  import DirectiveContainer
  import VariableDefinitionContainer
  import DirectiveFormatter
  import ContainerDirectiveFormatter
  import ShapeVariableFormatter
  import VariableFormatter
  import ValueFormatter

  /** A directive in Array shape renders the same before and after it becomes a container. */
  lemma DirectiveNormaliseThenRender(name: Value, arguments: Value, isConst: bool)
    requires DirectiveContainer.LegacyFrom(List([name, arguments])).Ok?
    ensures ContainerDirectiveFormatter.FormatDirective(DirectiveContainer.LegacyFrom(List([name, arguments])).value, isConst) ==
      DirectiveFormatter.FormatDirective(List([name, arguments]), isConst)
  {
    var d := DirectiveContainer.LegacyFrom(List([name, arguments])).value;
    ContainerDirectiveFormatter.AgreesWithArrayShape(d, isConst);
    assert DirectiveFormatter.FormatDirective(List([name, arguments]), isConst) ==
      DirectiveFormatter.FormatDirective(List([Sym(d.name), arguments]), isConst);
  }

  /**
   * A variable definition given as a type, or a type and a default, renders as `$name: ...` the
   * same way before and after normalisation; and normalisation fails exactly when the type is
   * missing, which the shape formatter refuses too.
   */
  lemma VariableNormaliseThenRender(name: string, items: seq<Value>)
    requires name != "" && |items| <= 2
    ensures VariableDefinitionContainer.From(Sym(name), List(items)).Ok? <==>
      RequiredText(At(items, 0), ShapeVariableFormatter.TypeRequired).Ok?
    ensures VariableDefinitionContainer.From(Sym(name), List(items)).Err? ==>
      ShapeVariableFormatter.FormatPair((name, List(items))).Err?
    ensures VariableDefinitionContainer.From(Sym(name), List(items)).Ok? ==>
      VariableFormatter.FormatDefinition(VariableDefinitionContainer.From(Sym(name), List(items)).value) ==
      ShapeVariableFormatter.FormatPair((name, List(items)))
  {
    var c := VariableDefinitionContainer.From(Sym(name), List(items));
    if c.Ok? {
      var d := c.value;
      var t := d.typeName;
      var default := if |items| > 1 then ShapeVariableFormatter.DefaultPart(items[1]) else Ok(None);
      if default.Ok? {
        Text.JoinPresent(t, default.value, None);
        var head := "$" + name + ":";
        assert [Some(head), Some(t), default.value, None] == [Some(head)] + [Some(t), default.value, None];
        VariableFormatter.CompactCons(head, [Some(t), default.value, None]);
        var rest := Text.Compact([Some(t), default.value, None]);
        VariableFormatter.JoinCons(head, rest, " ");
        assert head + " " + Text.Join(rest, " ") == "$" + name + ": " + Text.Join(rest, " ");
      }
    }
  }

  /**
   * On the directives slot the two generations part ways: the current container takes a
   * directive only as a container, a Symbol or a String, and the shape formatter refuses each of
   * those as 'Unsupported directive type'; so no definition with directives passes both.
   */
  lemma DirectivesSlotNeverShared(name: string, t: Value, d: Value, ds: seq<Value>)
    requires ds != []
    ensures !(VariableDefinitionContainer.From(Sym(name), List([t, d, List(ds)])).Ok? &&
              ShapeVariableFormatter.FormatPair((name, List([t, d, List(ds)]))).Ok?)
  {
    var items := [t, d, List(ds)];
    if VariableDefinitionContainer.From(Sym(name), List(items)).Ok? {
      assert FetchAt(items, 2, List([])) == List(ds);
      assert VariableDefinitionContainer.DirectivesFrom(ds).Ok?;
      assert DirectiveContainer.From(ds[0]).Ok?;
      assert DirectiveFormatter.FormatDirective(ds[0], true).Err?;
      assert DirectiveFormatter.FormatDirectives(ds, true).Err?;
      assert ShapeVariableFormatter.DirectivesPart(At(items, 2)).Err?;
    }
  }

  /**
   * `{x: [:Int, nil, [[:d]]]}` prints `$x: Int = null @d` through the shape formatter, while the
   * current container refuses the same slot with 'Unsupported format of directive'.
   */
  lemma DirectivesSlotWitness()
    ensures ShapeVariableFormatter.FormatPair(("x", List([Sym("Int"), Nil, List([List([Sym("d")])])]))) ==
      Ok("$x: Int = null @d")
    ensures VariableDefinitionContainer.From(Sym("x"), List([Sym("Int"), Nil, List([List([Sym("d")])])])) ==
      Err(DslError("Unsupported format of directive"))
  {
    WitnessDefinitionText();
    assert "$" + "x" + ": " + "Int = null @d" == "$x: Int = null @d";
    WitnessRefused();
  }

  lemma WitnessRefused()
    ensures VariableDefinitionContainer.From(Sym("x"), List([Sym("Int"), Nil, List([List([Sym("d")])])])) ==
      Err(DslError("Unsupported format of directive"))
  {
    var items := [Sym("Int"), Nil, List([List([Sym("d")])])];
    assert FetchAt(items, 2, List([])) == List([List([Sym("d")])]);
    assert VariableDefinitionContainer.DirectivesFrom([List([Sym("d")])]) == Err(DslError("Unsupported format of directive"));
  }

  /** `[:Int, nil, [[:d]]]` prints as `Int = null @d`. */
  lemma WitnessDefinitionText()
    ensures ShapeVariableFormatter.FormatDefinition(List([Sym("Int"), Nil, List([List([Sym("d")])])])) == Ok("Int = null @d")
  {
    var directive := List([Sym("d")]);
    var ds := [directive];
    BareDirectiveText();
    DirectiveFormatter.EachSnoc([], directive, true);
    assert [] + [directive] == ds;
    DirectiveFormatter.DirectivesAppend([], directive, true);
    assert DirectiveFormatter.FormatDirectives(ds, true) == Ok(Some("@d"));
    ShapeVariableFormatter.DirectivesRendering("Int", Nil, ds);
    assert ValueFormatter.FormatValue(Nil, true) == Ok("null");
    assert "Int" + " = " + "null" + (" " + "@d") == "Int = null @d";
  }

  /** `[:d]` prints as `@d`. */
  lemma BareDirectiveText()
    ensures DirectiveFormatter.FormatDirective(List([Sym("d")]), true) == Ok("@d")
  {
    DirectiveFormatter.Rendering("d", None);
    assert DirectiveFormatter.DirectiveName("d") == "@d";
    assert DirectiveFormatter.FromArray([Sym("d")], true) == Ok(Text.Join(Text.Compact([Some("@d"), None]), ""));
  }

}

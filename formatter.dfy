/**
 * The current generation's `Formatter`: a visitor that dispatches on the kind of node and prints
 * canonical GraphQL text, two spaces of indent per level, one line per signature or brace.
 */
module NodeFormatter {
  import opened Wrappers
  import opened Values
  import opened Nodes
  import Text
  import ArgumentFormatter
  import VariableFormatter
  import Dirs = ContainerDirectiveFormatter

  /** `indent(level)`: two spaces per level. */
  function Indent(level: nat): (r: string)
    ensures |r| == 2 * level
    ensures forall i | 0 <= i < |r| :: r[i] == ' '
  {
    Text.RepeatSpaces(level);
    Text.Repeat("  ", level)
  }

  function OperationTypeName(t: OperationType): string
  {
    match t
    case Query => "query"
    case Mutation => "mutation"
    case Subscription => "subscription"
  }

  /** `format_node(node, level)`: each kind of node goes to its own formatter; anything else is refused. */
  function FormatNode(node: Node, level: nat): (r: Result<string>)
    ensures node.BaseNode? ==> r == Err(DslError("Unknown node"))
    decreases node, 1
  {
    match node
    case ExecutableDocument(_) => FormatExecutableDocument(node, level)
    case Operation(_, _, _, _, _) => FormatOperation(node, level)
    case FragmentOperation(_, _, _, _) => FormatFragmentOperation(node, level)
    case Field(_, _, _, _, _) => FormatField(node, level)
    case FragmentSpread(_, _) => FormatFragmentSpread(node, level)
    case InlineFragment(_, _, _) => FormatInlineFragment(node, level)
    case BaseNode(_, _) => Err(DslError("Unknown node"))
  }

  /** `nodes.map { |node| format_node(node, level) }`: every child at the same level, in order. */
  function FormatChildren(nodes: seq<Node>, level: nat): (r: Result<seq<string>>)
    ensures r.Ok? <==> forall i | 0 <= i < |nodes| :: FormatNode(nodes[i], level).Ok?
    ensures r.Ok? ==> |r.value| == |nodes|
    ensures r.Ok? ==> forall i | 0 <= i < |nodes| :: FormatNode(nodes[i], level) == Ok(r.value[i])
    decreases nodes, 2
  {
    if nodes == [] then Ok([])
    else
      var first :- FormatNode(nodes[0], level);
      var rest :- FormatChildren(nodes[1..], level);
      assert forall i | 1 <= i < |nodes| :: nodes[i] == nodes[1..][i - 1];
      Ok([first] + rest)
  }

  /** The brace block around already formatted children. */
  function Block(level: nat, children: seq<string>): seq<string>
  {
    [Indent(level) + "{"] + children + [Indent(level) + "}"]
  }

  /** `format_executable_document`: the definitions at the document's own level, one blank line apart. */
  function FormatExecutableDocument(document: Node, level: nat): Result<string>
    requires document.ExecutableDocument?
    decreases document, 0
  {
    var children :- FormatChildren(document.nodes, level);
    Ok(Text.Join(children, "\n\n"))
  }

  /**
   * `format_operation_type` as written: the keyword is printed when the operation is not a query,
   * has a name or has variables; directives are not consulted.
   */
  function OperationKeywordAsWritten(operation: Node): Option<string>
    requires operation.Operation?
  {
    if operation.operationType != Query || operation.operationName.Some? || operation.variableDefinitions != [] then
      Some(OperationTypeName(operation.operationType))
    else None
  }

  /**
   * The keyword is left out only for the query shorthand, an anonymous query with neither
   * variables nor directives (section 2.3 of the GraphQL specification).
   */
  predicate IsShorthand(operation: Node)
    requires operation.Operation?
  {
    operation.operationType == Query && operation.operationName.None? &&
    operation.variableDefinitions == [] && operation.directives == []
  }

  /** `format_operation_type`, corrected so that directives also call for the keyword. */
  function OperationKeyword(operation: Node): (r: Option<string>)
    requires operation.Operation?
    ensures r.None? <==> IsShorthand(operation)
    ensures r.Some? ==> r.value == OperationTypeName(operation.operationType)
  {
    if operation.operationType != Query || operation.operationName.Some? ||
       operation.variableDefinitions != [] || operation.directives != [] then
      Some(OperationTypeName(operation.operationType))
    else None
  }

  function DefinitionValues(defs: Definitions): (r: seq<VariableDefinition>)
    ensures |r| == |defs| && forall i | 0 <= i < |defs| :: r[i] == defs[i].1
  {
    if defs == [] then [] else [defs[0].1] + DefinitionValues(defs[1..])
  }

  /**
   * `format_operation_signature` with a given keyword: the keyword, then the name and the
   * variable definitions with nothing between them, then the directives, space separated;
   * `None` when all three are absent.
   */
  function SignatureWith(operation: Node, keyword: Option<string>): Result<Option<string>>
    requires operation.Operation?
  {
    var variables :- VariableFormatter.FormatDefinitions(DefinitionValues(operation.variableDefinitions));
    var nameAndVariables := Text.Compact([operation.operationName, variables]);
    var directives :- Dirs.FormatDirectives(operation.directives, false);
    var parts := Text.Compact([keyword, if nameAndVariables == [] then None else Some(Text.Join(nameAndVariables, "")), directives]);
    Ok(if parts == [] then None else Some(Text.Join(parts, " ")))
  }

  function OperationSignatureAsWritten(operation: Node): Result<Option<string>>
    requires operation.Operation?
  {
    SignatureWith(operation, OperationKeywordAsWritten(operation))
  }

  function OperationSignature(operation: Node): Result<Option<string>>
    requires operation.Operation?
  {
    SignatureWith(operation, OperationKeyword(operation))
  }

  /** `format_operation`: the signature line when there is one, then the brace block, children one level deeper. */
  function FormatOperation(operation: Node, level: nat): Result<string>
    requires operation.Operation?
    decreases operation, 0
  {
    var signature :- OperationSignature(operation);
    var children :- FormatChildren(operation.nodes, level + 1);
    Ok(Text.Join((if signature.Some? then [Indent(level) + signature.value] else []) + Block(level, children), "\n"))
  }

  /** `format_fragment_operation_signature`: `fragment Name on Type`, then the directives. */
  function FragmentOperationSignature(fragment: Node): Result<string>
    requires fragment.FragmentOperation?
  {
    var directives :- Dirs.FormatDirectives(fragment.directives, false);
    Ok(Text.Join(Text.Compact([Some("fragment " + fragment.name), Some("on " + fragment.typeCondition), directives]), " "))
  }

  /** `format_fragment_operation`: the signature line and the brace block, which is printed even when empty. */
  function FormatFragmentOperation(fragment: Node, level: nat): Result<string>
    requires fragment.FragmentOperation?
    decreases fragment, 0
  {
    var signature :- FragmentOperationSignature(fragment);
    var children :- FormatChildren(fragment.nodes, level + 1);
    Ok(Text.Join([Indent(level) + signature] + Block(level, children), "\n"))
  }

  /** `format_field_signature`: alias, name, arguments and directives, each part only when present. */
  function FieldSignature(field: Node): Result<string>
    requires field.Field?
  {
    var arguments :- if field.arguments == [] then Ok(None) else ArgumentFormatter.FormatArguments(field.arguments, false);
    var directives :- if field.directives == [] then Ok(None) else Dirs.FormatDirectives(field.directives, false);
    Ok((if field.alias.Some? then field.alias.value + ": " else "") + field.name +
       (if arguments.Some? then arguments.value else "") +
       (if directives.Some? then " " + directives.value else ""))
  }

  /** `format_field`: the signature line, and the brace block only when the field has sub-selections. */
  function FormatField(field: Node, level: nat): Result<string>
    requires field.Field?
    decreases field, 0
  {
    var signature :- FieldSignature(field);
    if field.nodes == [] then Ok(Text.Join([Indent(level) + signature], "\n"))
    else
      var children :- FormatChildren(field.nodes, level + 1);
      Ok(Text.Join([Indent(level) + signature] + Block(level, children), "\n"))
  }

  /** `format_fragment_spread`: `...Name`, then the directives. */
  function FormatFragmentSpread(spread: Node, level: nat): Result<string>
    requires spread.FragmentSpread?
    decreases spread, 0
  {
    var directives :- Dirs.FormatDirectives(spread.directives, false);
    Ok(Indent(level) + "..." + Text.Join(Text.Compact([Some(spread.name), directives]), " "))
  }

  /** `format_inline_fragment_signature`: `...`, then `on Type` when there is a type, then the directives. */
  function InlineFragmentSignature(fragment: Node): Result<string>
    requires fragment.InlineFragment?
  {
    var directives :- Dirs.FormatDirectives(fragment.directives, false);
    var onType := if fragment.onType.Some? then Some("on " + fragment.onType.value) else None;
    Ok(Text.Join(Text.Compact([Some("..."), onType, directives]), " "))
  }

  /** `format_inline_fragment`: the signature line, and the brace block only when there are selections. */
  function FormatInlineFragment(fragment: Node, level: nat): Result<string>
    requires fragment.InlineFragment?
    decreases fragment, 0
  {
    var signature :- InlineFragmentSignature(fragment);
    if fragment.nodes == [] then Ok(Text.Join([Indent(level) + signature], "\n"))
    else
      var children :- FormatChildren(fragment.nodes, level + 1);
      Ok(Text.Join([Indent(level) + signature] + Block(level, children), "\n"))
  }

  /** `to_gql(level = 0, formatter)`: the node formatted by the formatter at the given level. */
  function ToGql(node: Node, level: nat := 0): Result<string>
  {
    FormatNode(node, level)
  }
}

/** The layout the formatter promises, node kind by node kind. */
module NodeFormatterProperties {
  import opened Wrappers
  import opened Values
  import opened Nodes
  import opened NodeFormatter
  import Text
  import Dirs = ContainerDirectiveFormatter
  import DirectiveFormatter
  import ArgumentFormatter
  import VariableFormatter

  /** Each line after the first: a newline before every one of them. */
  function Lines(lines: seq<string>): string
  {
    if lines == [] then "" else "\n" + lines[0] + Lines(lines[1..])
  }

  lemma {:induction false} LinesSnoc(lines: seq<string>, last: string)
    ensures Lines(lines + [last]) == Lines(lines) + "\n" + last
  {
    if lines != [] {
      assert (lines + [last])[1..] == lines[1..] + [last];
      LinesSnoc(lines[1..], last);
    }
  }

  /** Joining with newlines puts each later line on a line of its own. */
  lemma {:induction false} JoinLines(first: string, rest: seq<string>)
    ensures Text.Join([first] + rest, "\n") == first + Lines(rest)
    decreases |rest|
  {
    if rest != [] {
      assert ([first] + rest)[1..] == rest;
      assert rest == [rest[0]] + rest[1..];
      JoinLines(rest[0], rest[1..]);
    }
  }

  /** A brace block: `{` at the node's indent, each child on its own line, `}` at the node's indent. */
  lemma BlockText(level: nat, children: seq<string>)
    ensures Text.Join(Block(level, children), "\n") ==
      Indent(level) + "{" + Lines(children) + "\n" + Indent(level) + "}"
  {
    var open, close := Indent(level) + "{", Indent(level) + "}";
    assert Block(level, children) == [open] + (children + [close]);
    JoinLines(open, children + [close]);
    LinesSnoc(children, close);
  }

  /** A line before a brace block sits on a line of its own above the `{`. */
  lemma HeadedBlockText(head: string, level: nat, children: seq<string>)
    ensures Text.Join([head] + Block(level, children), "\n") ==
      head + "\n" + Indent(level) + "{" + Lines(children) + "\n" + Indent(level) + "}"
  {
    var block := Block(level, children);
    JoinLines(head, block);
    assert block == [block[0]] + block[1..];
    JoinLines(block[0], block[1..]);
    assert Lines(block) == "\n" + Text.Join(block, "\n");
    BlockText(level, children);
  }

  /** A block preceded by an optional head line. */
  lemma OptionalHeadBlockText(head: Option<string>, level: nat, children: seq<string>)
    ensures Text.Join((if head.Some? then [head.value] else []) + Block(level, children), "\n") ==
      (if head.Some? then head.value + "\n" else "") + Indent(level) + "{" + Lines(children) + "\n" + Indent(level) + "}"
  {
    if head.Some? {
      HeadedBlockText(head.value, level, children);
    } else {
      assert [] + Block(level, children) == Block(level, children);
      BlockText(level, children);
    }
  }

  /** A document with no definitions is empty text. */
  lemma EmptyDocument(level: nat)
    ensures FormatNode(ExecutableDocument([]), level) == Ok("")
  {
  }

  /**
   * Adding a definition at the end of a document adds its text at the end, after one blank line
   * when something came before; every definition is formatted at the document's own level.
   */
  lemma DocumentAppend(nodes: seq<Node>, node: Node, level: nat)
    ensures FormatNode(ExecutableDocument(nodes + [node]), level).Ok? <==>
      FormatNode(ExecutableDocument(nodes), level).Ok? && FormatNode(node, level).Ok?
    ensures FormatNode(ExecutableDocument(nodes + [node]), level).Ok? ==>
      FormatNode(ExecutableDocument(nodes + [node]), level).value ==
        (if nodes == [] then FormatNode(node, level).value
         else FormatNode(ExecutableDocument(nodes), level).value + "\n\n" + FormatNode(node, level).value)
  {
    var all := nodes + [node];
    assert forall i | 0 <= i < |nodes| :: all[i] == nodes[i];
    assert all[|nodes|] == node;
    var whole := FormatChildren(all, level);
    if whole.Ok? {
      var before := FormatChildren(nodes, level);
      assert before.Ok?;
      assert whole.value == before.value + [FormatNode(node, level).value];
      Text.JoinSnoc(before.value, FormatNode(node, level).value, "\n\n");
    }
  }

  /**
   * An operation's signature is left out exactly for the query shorthand; otherwise it starts
   * with the operation keyword (what follows it is stated by `OperationSignatureText`).
   */
  lemma OperationSignatureShape(operation: Node)
    requires operation.Operation?
    ensures OperationSignature(operation).Ok? ==>
      (OperationSignature(operation).value.None? <==> IsShorthand(operation))
    ensures OperationSignature(operation).Ok? && !IsShorthand(operation) ==>
      OperationTypeName(operation.operationType) <= OperationSignature(operation).value.value
  {
    var variables := VariableFormatter.FormatDefinitions(DefinitionValues(operation.variableDefinitions));
    var directives := Dirs.FormatDirectives(operation.directives, false);
    if variables.Ok? && directives.Ok? {
      var nameAndVariables := Text.Compact([operation.operationName, variables.value]);
      var middle := if nameAndVariables == [] then None else Some(Text.Join(nameAndVariables, ""));
      var keyword := OperationKeyword(operation);
      if IsShorthand(operation) {
        var none: Option<string> := None;
        assert Text.Compact([none]) == [] by {
          assert [none][1..] == [];
        }
        assert Text.Compact([none, none]) == [] by {
          assert [none, none][1..] == [none];
        }
        assert Text.Compact([none, none, none]) == [] by {
          assert [none, none, none][1..] == [none, none];
        }
      } else {
        Text.JoinPresent(keyword.value, middle, directives.value);
      }
    }
  }

  /**
   * Outside the shorthand, an operation's signature is its keyword; then, after one space, its
   * name and its variable-definition clause with nothing between them, when either is present;
   * then, after one space, its directives printed outside a constant context, when it has some.
   */
  lemma OperationSignatureText(operation: Node)
    requires operation.Operation? && !IsShorthand(operation) && OperationSignature(operation).Ok?
    ensures var variables := VariableFormatter.FormatDefinitions(DefinitionValues(operation.variableDefinitions));
      variables.Ok? && (variables.value.None? <==> operation.variableDefinitions == [])
    ensures var directives := Dirs.FormatDirectives(operation.directives, false);
      directives.Ok? && (directives.value.None? <==> operation.directives == [])
    ensures var variables := VariableFormatter.FormatDefinitions(DefinitionValues(operation.variableDefinitions)).value;
      var directives := Dirs.FormatDirectives(operation.directives, false).value;
      var name := operation.operationName;
      OperationSignature(operation).value ==
        Some(OperationTypeName(operation.operationType) +
          (if name.Some? || variables.Some? then
             " " + (if name.Some? then name.value else "") + (if variables.Some? then variables.value else "")
           else "") +
          (if directives.Some? then " " + directives.value else ""))
  {
    var keyword := OperationKeyword(operation);
    assert OperationSignature(operation) == SignatureWith(operation, keyword);
    var definitions := DefinitionValues(operation.variableDefinitions);
    var variablesResult := VariableFormatter.FormatDefinitions(definitions);
    var directivesResult := Dirs.FormatDirectives(operation.directives, false);
    assert variablesResult.Ok? && directivesResult.Ok?;
    var variables, directives := variablesResult.value, directivesResult.value;
    VariableFormatter.ClauseText(definitions);
    assert definitions == [] <==> operation.variableDefinitions == [];
    assert directives.None? <==> operation.directives == [];
    var nameAndVariables := Text.Compact([operation.operationName, variables]);
    var middle := if nameAndVariables == [] then None else Some(Text.Join(nameAndVariables, ""));
    assert SignatureWith(operation, keyword) ==
      Ok(Some(Text.Join(Text.Compact([keyword, middle, directives]), " ")));
    SignatureParts(keyword.value, operation.operationName, variables, directives);
  }

  /** The keyword, then the name and variables run together, then the directives, space separated. */
  lemma SignatureParts(keyword: string, name: Option<string>, variables: Option<string>, directives: Option<string>)
    ensures var nameAndVariables := Text.Compact([name, variables]);
      var middle := if nameAndVariables == [] then None else Some(Text.Join(nameAndVariables, ""));
      Text.Join(Text.Compact([Some(keyword), middle, directives]), " ") ==
        keyword +
        (if name.Some? || variables.Some? then
           " " + (if name.Some? then name.value else "") + (if variables.Some? then variables.value else "")
         else "") +
        (if directives.Some? then " " + directives.value else "")
  {
    var nameAndVariables := Text.Compact([name, variables]);
    var middle := if nameAndVariables == [] then None else Some(Text.Join(nameAndVariables, ""));
    NameAndVariablesText(name, variables);
    Text.JoinPresent(keyword, middle, directives);
    if middle.Some? {
      var n, v := if name.Some? then name.value else "", if variables.Some? then variables.value else "";
      assert " " + middle.value == " " + n + v;
    }
  }

  /** The name and the variable clause, joined with nothing between them: absent only when both are. */
  lemma NameAndVariablesText(name: Option<string>, variables: Option<string>)
    ensures Text.Compact([name, variables]) == [] <==> name.None? && variables.None?
    ensures Text.Compact([name, variables]) != [] ==>
      Text.Join(Text.Compact([name, variables]), "") ==
        (if name.Some? then name.value else "") + (if variables.Some? then variables.value else "")
  {
    assert [name, variables][1..] == [variables];
    assert [variables][1..] == [];
    var first := if name.Some? then [name.value] else [];
    var second := if variables.Some? then [variables.value] else [];
    assert Text.Compact([variables]) == second + Text.Compact([]);
    assert Text.Compact([name, variables]) == first + second;
  }

  /**
   * An operation prints its signature line unless it is the query shorthand, then `{` at its own
   * indent, each child one level deeper on a line of its own, and `}` at its own indent.
   */
  lemma OperationLayout(operation: Node, level: nat)
    requires operation.Operation? && FormatNode(operation, level).Ok?
    ensures OperationSignature(operation).Ok? && FormatChildren(operation.nodes, level + 1).Ok?
    ensures var children := FormatChildren(operation.nodes, level + 1).value;
      FormatNode(operation, level).value ==
        (if IsShorthand(operation) then "" else Indent(level) + OperationSignature(operation).value.value + "\n") +
        Indent(level) + "{" + Lines(children) + "\n" + Indent(level) + "}"
  {
    var signature := OperationSignature(operation).value;
    var children := FormatChildren(operation.nodes, level + 1).value;
    var head := if signature.Some? then Some(Indent(level) + signature.value) else None;
    OptionalHeadBlockText(head, level, children);
    OperationSignatureShape(operation);
  }

  /** A fragment definition's signature is `fragment Name on Type`, then its directives after a space. */
  lemma FragmentOperationSignatureText(fragment: Node)
    requires fragment.FragmentOperation? && FragmentOperationSignature(fragment).Ok?
    ensures Dirs.FormatDirectives(fragment.directives, false).Ok?
    ensures var directives := Dirs.FormatDirectives(fragment.directives, false).value;
      FragmentOperationSignature(fragment).value ==
        "fragment " + fragment.name + " on " + fragment.typeCondition +
        (if directives.Some? then " " + directives.value else "")
  {
    var directives := Dirs.FormatDirectives(fragment.directives, false).value;
    var head, on := "fragment " + fragment.name, "on " + fragment.typeCondition;
    Text.JoinPresent(head, Some(on), directives);
    assert head + " " + on == "fragment " + fragment.name + " on " + fragment.typeCondition;
  }

  /** A fragment definition always prints its signature line and its brace block, even when empty. */
  lemma FragmentOperationLayout(fragment: Node, level: nat)
    requires fragment.FragmentOperation? && FormatNode(fragment, level).Ok?
    ensures FragmentOperationSignature(fragment).Ok? && FormatChildren(fragment.nodes, level + 1).Ok?
    ensures var children := FormatChildren(fragment.nodes, level + 1).value;
      FormatNode(fragment, level).value ==
        Indent(level) + FragmentOperationSignature(fragment).value + "\n" +
        Indent(level) + "{" + Lines(children) + "\n" + Indent(level) + "}"
  {
    var children := FormatChildren(fragment.nodes, level + 1).value;
    var signature := FragmentOperationSignature(fragment).value;
    assert FormatNode(fragment, level) == Ok(Text.Join([Indent(level) + signature] + Block(level, children), "\n"));
    HeadedBlockText(Indent(level) + signature, level, children);
  }

  /**
   * A field's signature is its name, preceded by `alias: ` exactly when it has an alias, then its
   * argument clause exactly when it has arguments, then its directives after a space exactly
   * when it has some, in that order.
   */
  lemma FieldSignatureShape(field: Node)
    requires field.Field? && FieldSignature(field).Ok?
    ensures exists prefix, argumentsText, directivesText ::
      FieldSignature(field).value == prefix + field.name + argumentsText + directivesText &&
      (prefix == "" <==> field.alias.None?) &&
      (field.alias.Some? ==> prefix == field.alias.value + ": ") &&
      (argumentsText == "" <==> field.arguments == []) &&
      (field.arguments != [] ==> "(" <= argumentsText) &&
      (directivesText == "" <==> field.directives == []) &&
      (field.directives != [] ==> " @" <= directivesText)
  {
    var prefix, argumentsText, directivesText := FieldSignatureParts(field);
  }

  /** The signature's parts: the alias prefix, the arguments text and the directives text. */
  lemma FieldSignatureParts(field: Node) returns (prefix: string, argumentsText: string, directivesText: string)
    requires field.Field? && FieldSignature(field).Ok?
    ensures FieldSignature(field).value == prefix + field.name + argumentsText + directivesText
    ensures prefix == "" <==> field.alias.None?
    ensures field.alias.Some? ==> prefix == field.alias.value + ": "
    ensures argumentsText == "" <==> field.arguments == []
    ensures field.arguments != [] ==> "(" <= argumentsText
    ensures directivesText == "" <==> field.directives == []
    ensures field.directives != [] ==> " @" <= directivesText
    ensures field.arguments != [] ==>
      ArgumentFormatter.FormatArguments(field.arguments, false).Ok? &&
      ArgumentFormatter.FormatArguments(field.arguments, false).value.Some? &&
      argumentsText == ArgumentFormatter.FormatArguments(field.arguments, false).value.value
    ensures field.directives != [] ==>
      Dirs.FormatDirectives(field.directives, false).Ok? &&
      Dirs.FormatDirectives(field.directives, false).value.Some? &&
      directivesText == " " + Dirs.FormatDirectives(field.directives, false).value.value
  {
    var arguments := (if field.arguments == [] then Ok(None) else ArgumentFormatter.FormatArguments(field.arguments, false)).value;
    var directives := (if field.directives == [] then Ok(None) else Dirs.FormatDirectives(field.directives, false)).value;
    prefix := if field.alias.Some? then field.alias.value + ": " else "";
    argumentsText := if arguments.Some? then arguments.value else "";
    directivesText := if directives.Some? then " " + directives.value else "";
    if field.arguments != [] {
      ArgumentFormatter.AbsentIffEmpty(field.arguments, false);
      assert "(" <= argumentsText;
    }
    if field.directives != [] {
      DirectivesStartWithAt(field.directives, false);
      assert " @" <= directivesText;
    }
  }

  /** A non-empty directive list is printed, and its text starts with `@`. */
  lemma DirectivesStartWithAt(directives: seq<Directive>, isConst: bool)
    requires directives != [] && Dirs.FormatDirectives(directives, isConst).Ok?
    ensures Dirs.FormatDirectives(directives, isConst).value.Some?
    ensures "@" <= Dirs.FormatDirectives(directives, isConst).value.value
  {
    var parts := Dirs.FormatEach(directives, isConst).value;
    Text.JoinStartsWithFirst(parts, " ");
    var first := Dirs.FormatDirective(directives[0], isConst).value;
    assert parts[0] == first;
    assert "@" <= first by {
      var name := DirectiveFormatter.DirectiveName(directives[0].name);
      assert "@" <= name;
    }
  }

  /**
   * A field without sub-selections is its signature on one line with no braces; a field with
   * sub-selections adds its brace block with the children one level deeper.
   */
  lemma FieldLayout(field: Node, level: nat)
    requires field.Field? && FormatNode(field, level).Ok?
    ensures FieldSignature(field).Ok? && (field.nodes != [] ==> FormatChildren(field.nodes, level + 1).Ok?)
    ensures field.nodes == [] ==> FormatNode(field, level).value == Indent(level) + FieldSignature(field).value
    ensures field.nodes != [] ==>
      var children := FormatChildren(field.nodes, level + 1).value;
      FormatNode(field, level).value ==
        Indent(level) + FieldSignature(field).value + "\n" +
        Indent(level) + "{" + Lines(children) + "\n" + Indent(level) + "}"
  {
    if field.nodes != [] {
      HeadedBlockText(Indent(level) + FieldSignature(field).value, level, FormatChildren(field.nodes, level + 1).value);
    }
  }

  /** A fragment spread is one line: `...Name`, then its directives after a space. */
  lemma FragmentSpreadLayout(spread: Node, level: nat)
    requires spread.FragmentSpread? && FormatNode(spread, level).Ok?
    ensures Dirs.FormatDirectives(spread.directives, false).Ok?
    ensures var directives := Dirs.FormatDirectives(spread.directives, false).value;
      FormatNode(spread, level).value ==
        Indent(level) + "..." + spread.name + (if directives.Some? then " " + directives.value else "")
  {
    var directives := Dirs.FormatDirectives(spread.directives, false).value;
    assert [Some(spread.name), directives] == [Some(spread.name)] + [directives];
    Text.CompactSnoc([Some(spread.name)], directives);
    if directives.Some? {
      Text.JoinSnoc([spread.name], directives.value, " ");
    }
  }

  /** An inline fragment's signature is `...`, then ` on Type` when it has a type, then its directives after a space. */
  lemma InlineFragmentSignatureText(fragment: Node)
    requires fragment.InlineFragment? && InlineFragmentSignature(fragment).Ok?
    ensures Dirs.FormatDirectives(fragment.directives, false).Ok?
    ensures var directives := Dirs.FormatDirectives(fragment.directives, false).value;
      InlineFragmentSignature(fragment).value ==
        "..." + (if fragment.onType.Some? then " on " + fragment.onType.value else "") +
        (if directives.Some? then " " + directives.value else "")
  {
    var directives := Dirs.FormatDirectives(fragment.directives, false).value;
    var onType := if fragment.onType.Some? then Some("on " + fragment.onType.value) else None;
    Text.JoinPresent("...", onType, directives);
  }

  /** An inline fragment prints its signature line, and the brace block only when it has selections. */
  lemma InlineFragmentLayout(fragment: Node, level: nat)
    requires fragment.InlineFragment? && FormatNode(fragment, level).Ok?
    ensures InlineFragmentSignature(fragment).Ok?
    ensures fragment.nodes != [] ==> FormatChildren(fragment.nodes, level + 1).Ok?
    ensures fragment.nodes == [] ==> FormatNode(fragment, level).value == Indent(level) + InlineFragmentSignature(fragment).value
    ensures fragment.nodes != [] ==>
      var children := FormatChildren(fragment.nodes, level + 1).value;
      FormatNode(fragment, level).value ==
        Indent(level) + InlineFragmentSignature(fragment).value + "\n" +
        Indent(level) + "{" + Lines(children) + "\n" + Indent(level) + "}"
  {
    if fragment.nodes != [] {
      HeadedBlockText(Indent(level) + InlineFragmentSignature(fragment).value, level, FormatChildren(fragment.nodes, level + 1).value);
    }
  }

  /**
   * As written, an anonymous query with a directive loses its keyword and prints `@live` before
   * its braces, which is not an operation in GraphQL's grammar; with the keyword restored it
   * prints `query @live`.
   */
  lemma AnonymousQueryDirectiveWitness()
    ensures var operation := Operation(Query, None, [], [Directive("live", Hash([]))], []);
      OperationSignatureAsWritten(operation) == Ok(Some("@live")) &&
      OperationSignature(operation) == Ok(Some("query @live")) &&
      FormatNode(operation, 0) == Ok("query @live\n{\n}")
  {
    var live := Directive("live", Hash([]));
    var operation := Operation(Query, None, [], [live], []);
    assert DirectiveFormatter.ArgumentsOf(Hash([])) == Ok([]);
    assert DirectiveFormatter.ArgumentsClause(Hash([]), false) == Ok(None);
    assert DirectiveFormatter.DirectiveName("live") == "@live";
    assert live.name == "live" && live.arguments == Hash([]);
    assert Dirs.FormatDirective(live, false) == Ok(DirectiveFormatter.DirectiveName("live") + "");
    assert DirectiveFormatter.DirectiveName("live") + "" == "@live";
    assert Dirs.FormatDirective(live, false) == Ok("@live");
    assert Dirs.FormatEach([live], false) == Ok(["@live"]) by {
      assert [live][0] == live && [live][1..] == [];
      assert Dirs.FormatEach([], false) == Ok([]);
      assert ["@live"] + [] == ["@live"];
    }
    assert Dirs.FormatDirectives([live], false) == Ok(Some("@live"));
    assert DefinitionValues([]) == [];
    assert VariableFormatter.FormatDefinitions([]) == Ok(None);
    var none: Option<string> := None;
    assert Text.Compact([none]) == [] by {
      assert [none][1..] == [];
    }
    assert Text.Compact([none, none]) == [] by {
      assert [none, none][1..] == [none];
    }
    assert Text.Compact([Some("@live")]) == ["@live"] by {
      assert [Some("@live")][1..] == [];
    }
    assert Text.Compact([none, Some("@live")]) == ["@live"] by {
      assert [none, Some("@live")][1..] == [Some("@live")];
    }
    assert Text.Compact([none, none, Some("@live")]) == ["@live"] by {
      assert [none, none, Some("@live")][1..] == [none, Some("@live")];
    }
    assert OperationKeywordAsWritten(operation) == None;
    assert OperationSignatureAsWritten(operation) == Ok(Some("@live"));
    Text.JoinPresent("query", None, Some("@live"));
    assert OperationKeyword(operation) == Some("query");
    assert Text.Join(Text.Compact([Some("query"), none, Some("@live")]), " ") == "query @live";
    assert OperationSignature(operation) == Ok(Some("query @live"));
    assert FormatChildren([], 1) == Ok([]);
    assert Indent(0) == "" && Indent(0) + "query @live" == "query @live";
    HeadedBlockText("query @live", 0, []);
    assert Lines([]) == "";
    assert FormatNode(operation, 0) == Ok(Text.Join(["query @live"] + Block(0, []), "\n"));
    assert Text.Join(["query @live"] + Block(0, []), "\n") == "query @live\n{\n}";
  }
}

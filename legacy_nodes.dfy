/**
 * The earlier generation's nodes: each node class prints itself with its own `to_gql`, and the
 * builder methods of a block push children onto `@__nodes`. The explicit builder methods are
 * the selection-set ones (`__field`, `__fragment`, `__inline_fragment`) and `__var` on an
 * operation, the two overriding ones on a field, and `query`, `mutation`, `subscription` and
 * `fragment` on a document; the other node kinds take their children only through the
 * dynamic-dispatch sugar, which is not part of this model, so an explicit call in their blocks
 * is a call to a method they do not have.
 */
module LegacyNodes {
  import opened Wrappers
  import opened Values
  import Text
  import Nodes
  import ArgumentMixin
  import VariableDefinitionContainer
  import NodeFormatter

  datatype LegacyNode =
    | Document(nodes: seq<LegacyNode>)
    | Operation(operationType: Nodes.OperationType, operationName: Option<string>,
                variableDefinitions: seq<VariableDefinition>, directives: seq<Directive>, nodes: seq<LegacyNode>)
    | Field(name: string, alias: Option<string>, arguments: seq<Entry>, nodes: seq<LegacyNode>)
    | FragmentOperation(name: string, typeCondition: string, nodes: seq<LegacyNode>)
    | Fragment(name: string, typeCondition: string, nodes: seq<LegacyNode>)
    | FragmentSpread(name: string, directives: seq<Directive>)
    | InlineFragment(fragmentName: Option<string>, onType: Option<string>, nodes: seq<LegacyNode>)
    | Query(queryName: Option<string>, nodes: seq<LegacyNode>)
    | QueryOperation(queryName: Option<string>, nodes: seq<LegacyNode>)

  datatype LegacyCall =
    | FieldCall(name: string, alias: Option<string>, arguments: seq<Entry>, block: seq<LegacyCall>)
    | FragmentCall(fragmentName: string)
    | InlineFragmentCall(typeArgument: Option<string>, hasBlock: bool, block: seq<LegacyCall>)
    | VarCall(varName: Value, varType: Value, default: Default, varDirectives: Value)
    | OperationCall(operationType: Nodes.OperationType, operationName: Option<string>, block: seq<LegacyCall>)
    | FragmentDefinitionCall(definitionName: Value, definitionType: Value, block: seq<LegacyCall>)

  datatype LegacyReceiver =
    | DocumentReceiver     // `ExecutableDocument`
    | OperationReceiver    // `Operation`: the selection-set methods and `__var`
    | FieldReceiver        // `Field`: its own `__fragment` and `__inline_fragment`
    | SugarOnlyReceiver    // fragment definitions, fragments, inline fragments, queries

  /** `@__nodes`, and an operation's `@__variable_definitions` list. */
  datatype LegacyState = LegacyState(nodes: seq<LegacyNode>, variableDefinitions: seq<VariableDefinition>)

  const Empty := LegacyState([], [])

  predicate Responds(receiver: LegacyReceiver, c: LegacyCall)
  {
    match receiver
    case DocumentReceiver => c.OperationCall? || c.FragmentDefinitionCall?
    case OperationReceiver => c.FieldCall? || c.FragmentCall? || c.InlineFragmentCall? || c.VarCall?
    case FieldReceiver => c.FragmentCall? || c.InlineFragmentCall?
    case SugarOnlyReceiver => false
  }

  /** The `(name, type)` arguments `__inline_fragment(type, &block)` passes to `InlineFragment.new`, as written. */
  function InlineFragmentArgumentsAsWritten(typeArgument: Option<string>): (Option<string>, Option<string>)
  {
    (typeArgument, None)
  }

  /** The arguments `__inline_fragment(type, &block)` evidently means to pass: no name, the given type. */
  function InlineFragmentArguments(typeArgument: Option<string>): (r: (Option<string>, Option<string>))
    ensures r.0.None? && r.1 == typeArgument
  {
    (None, typeArgument)
  }

  /**
   * `InlineFragment.new(name, type, &block)`: a name excludes both a type and a block, and a
   * type needs a block; then the block fills the children.
   */
  function NewInlineFragment(name: Option<string>, typeCondition: Option<string>, hasBlock: bool, block: seq<LegacyCall>)
    : (r: Result<LegacyNode>)
    ensures name.Some? && typeCondition.Some? ==>
      r == Err(DslError("Only one from `name` or `type` arguments must be specified"))
    ensures name.Some? && typeCondition.None? && hasBlock ==> r == Err(DslError("Sub-fields must not be specified for fragment"))
    ensures name.None? && typeCondition.Some? && !hasBlock ==> r == Err(DslError("Sub-fields must be specified for inline fragment"))
    ensures r.Ok? ==> r.value.InlineFragment? && r.value.fragmentName == name && r.value.onType == typeCondition
    ensures r.Ok? ==> (name.Some? ==> typeCondition.None? && !hasBlock) && (typeCondition.Some? ==> hasBlock)
    decreases block, 1
  {
    if name.Some? && typeCondition.Some? then Err(DslError("Only one from `name` or `type` arguments must be specified"))
    else if name.Some? && hasBlock then Err(DslError("Sub-fields must not be specified for fragment"))
    else if typeCondition.Some? && !hasBlock then Err(DslError("Sub-fields must be specified for inline fragment"))
    else
      var st :- RunBlock(SugarOnlyReceiver, Empty, block);
      Ok(InlineFragment(name, typeCondition, st.nodes))
  }

  /** `Operation.new(type, name, variable_definitions, directives, &block)`: definitions become a list. */
  function NewOperation(operationType: Nodes.OperationType, name: Option<string>, definitions: seq<Entry>,
                        directives: seq<Value>, block: seq<LegacyCall>): Result<LegacyNode>
    decreases block, 1
  {
    var defs :- Nodes.NormaliseDefinitions(definitions);
    var ds :- Nodes.NormaliseDirectives(directives);
    var st :- RunBlock(OperationReceiver, LegacyState([], NodeFormatter.DefinitionValues(defs)), block);
    Ok(Operation(operationType, name, st.variableDefinitions, ds, st.nodes))
  }

  /** `FragmentOperation.new(name, type, &block)` and `Fragment.new(name, type, &block)` share their checks. */
  function NewFragmentDefinition(name: Value, typeCondition: Value, block: seq<LegacyCall>, isFragment: bool)
    : Result<LegacyNode>
    decreases block, 1
  {
    var n :- RequiredText(name, "`name` must be specified");
    var t :- RequiredText(typeCondition, "`type` must be specified");
    var st :- RunBlock(SugarOnlyReceiver, Empty, block);
    Ok(if isFragment then Fragment(n, t, st.nodes) else FragmentOperation(n, t, st.nodes))
  }

  /** The node a call constructs on the given receiver. */
  function Construct(receiver: LegacyReceiver, c: LegacyCall): Result<LegacyNode>
    requires !c.VarCall?
    decreases c, 1
  {
    match c
    case FieldCall(name, alias, arguments, block) =>
      var st :- RunBlock(FieldReceiver, Empty, block);
      Ok(Field(name, alias, arguments, st.nodes))
    case FragmentCall(name) =>
      if receiver.FieldReceiver? then Err(RubyError("wrong number of arguments (given 1, expected 2)"))
      else Ok(FragmentSpread(name, []))
    case InlineFragmentCall(typeArgument, hasBlock, block) =>
      var arguments := InlineFragmentArguments(typeArgument);
      NewInlineFragment(arguments.0, arguments.1, hasBlock, block)
    case OperationCall(operationType, name, block) =>
      NewOperation(operationType, name, [], [], block)
    case FragmentDefinitionCall(name, typeCondition, block) =>
      NewFragmentDefinition(name, typeCondition, block, false)
  }

  /** One call on a receiver: a node is pushed, or `__var` pushes a definition; duplicates are kept. */
  function Apply(receiver: LegacyReceiver, st: LegacyState, c: LegacyCall): Result<LegacyState>
    decreases c, 2
  {
    if !Responds(receiver, c) then Err(RubyError("undefined method"))
    else if c.VarCall? then
      var d :- VariableDefinitionContainer.New(c.varName, c.varType, c.default, c.varDirectives);
      Ok(LegacyState(st.nodes, st.variableDefinitions + [d]))
    else
      var node :- Construct(receiver, c);
      Ok(LegacyState(st.nodes + [node], st.variableDefinitions))
  }

  function RunBlock(receiver: LegacyReceiver, st: LegacyState, calls: seq<LegacyCall>): Result<LegacyState>
    decreases calls, 0
  {
    if calls == [] then Ok(st)
    else
      var next :- Apply(receiver, st, calls[0]);
      RunBlock(receiver, next, calls[1..])
  }

  /** `ExecutableDocument.new(&block)`. */
  function BuildDocument(block: seq<LegacyCall>): Result<LegacyNode>
  {
    var st :- RunBlock(DocumentReceiver, Empty, block);
    Ok(Document(st.nodes))
  }

  /** The brace block and the children: `{`, each child one level deeper, `}`. */
  function Braced(level: nat, children: seq<string>): seq<string>
  {
    NodeFormatter.Block(level, children)
  }

  /**
   * `to_gql(level)`: each node class prints itself; the classes without their own `to_gql`
   * inherit the base one, which raises `NotImplementedError`.
   */
  function ToGql(node: LegacyNode, level: nat): (r: Result<string>)
    ensures node.Document? || node.Operation? || node.FragmentSpread? ==> r == Err(RubyError("NotImplementedError"))
    decreases node, 1
  {
    match node
    case Field(name, alias, arguments, nodes) =>
      var fieldArguments :- ArgumentMixin.ArgumentsToS(arguments);
      var head := NodeFormatter.Indent(level) + (if alias.Some? then alias.value + ": " + name else name) + fieldArguments;
      if nodes == [] then Ok(Text.Join([head], "\n"))
      else
        var children :- ChildrenToGql(nodes, level + 1);
        Ok(Text.Join([head] + Braced(level, children), "\n"))
    case FragmentOperation(name, typeCondition, nodes) =>
      var children :- ChildrenToGql(nodes, level + 1);
      Ok(Text.Join([NodeFormatter.Indent(level) + ("fragment " + name + " on " + typeCondition)] + Braced(level, children), "\n"))
    case Fragment(name, typeCondition, nodes) =>
      var children :- ChildrenToGql(nodes, level + 1);
      Ok(Text.Join([NodeFormatter.Indent(level) + ("fragment " + name + " on " + typeCondition)] + Braced(level, children), "\n"))
    case InlineFragment(name, typeCondition, nodes) =>
      var head := NodeFormatter.Indent(level) + ("... " + (if name.Some? then name.value else "") +
        (if typeCondition.Some? then "on " + typeCondition.value else ""));
      if nodes == [] then Ok(Text.Join([head], "\n"))
      else
        var children :- ChildrenToGql(nodes, level + 1);
        Ok(Text.Join([head] + Braced(level, children), "\n"))
    case Query(name, nodes) =>
      var children :- ChildrenToGql(nodes, level + 1);
      Ok(Text.Join((if name.Some? then [NodeFormatter.Indent(level) + ("query " + name.value)] else []) + Braced(level, children), "\n"))
    case QueryOperation(name, nodes) =>
      var children :- ChildrenToGql(nodes, level + 1);
      Ok(Text.Join((if name.Some? then [NodeFormatter.Indent(level) + ("query " + name.value)] else []) + Braced(level, children), "\n"))
    case Document(_) => Err(RubyError("NotImplementedError"))
    case Operation(_, _, _, _, _) => Err(RubyError("NotImplementedError"))
    case FragmentSpread(_, _) => Err(RubyError("NotImplementedError"))
  }

  /** `nodes.map { |node| node.to_gql(level) }`. */
  function ChildrenToGql(nodes: seq<LegacyNode>, level: nat): (r: Result<seq<string>>)
    ensures r.Ok? <==> forall i | 0 <= i < |nodes| :: ToGql(nodes[i], level).Ok?
    ensures r.Ok? ==> |r.value| == |nodes|
    ensures r.Ok? ==> forall i | 0 <= i < |nodes| :: ToGql(nodes[i], level) == Ok(r.value[i])
    decreases nodes, 2
  {
    if nodes == [] then Ok([])
    else
      var first :- ToGql(nodes[0], level);
      var rest :- ChildrenToGql(nodes[1..], level);
      assert forall i | 1 <= i < |nodes| :: nodes[i] == nodes[1..][i - 1];
      Ok([first] + rest)
  }
}

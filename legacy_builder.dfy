/**
 * The earlier generation's builder as it runs: each node's initializer checks its arguments and
 * evaluates its block against itself, and each builder method pushes a child onto `@__nodes`
 * (or, for `__var`, a definition onto `@__variable_definitions`). Every method is proved to
 * agree with the functions of module LegacyNodes.
 */
module LegacyBuilder {
  import opened Wrappers
  import opened Values
  import opened LegacyNodes
  import Nodes
  import NodeFormatter
  import VariableDefinitionContainer

  class LegacyNodeBuilder {
    const receiver: LegacyReceiver
    var nodes: seq<LegacyNode>
    var variableDefinitions: seq<VariableDefinition>

    function Current(): LegacyState
      reads this
    {
      LegacyState(nodes, variableDefinitions)
    }

    constructor (receiver: LegacyReceiver, variableDefinitions: seq<VariableDefinition>)
      ensures this.receiver == receiver
      ensures nodes == [] && this.variableDefinitions == variableDefinitions
    {
      this.receiver := receiver;
      nodes := [];
      this.variableDefinitions := variableDefinitions;
    }

    /** Pushes a constructed child; on failure nothing changes. */
    method Push(child: Result<LegacyNode>) returns (r: Result<LegacyState>)
      modifies this
      ensures r.Ok? <==> child.Ok?
      ensures child.Ok? ==> nodes == old(nodes) + [child.value] && r.value == Current()
      ensures child.Err? ==> nodes == old(nodes) && r == Err(child.error)
      ensures variableDefinitions == old(variableDefinitions)
    {
      if child.Err? {
        return Err(child.error);
      }
      nodes := nodes + [child.value];
      return Ok(Current());
    }

    /** `SelectionSet#__field(name, __alias:, **arguments, &block)` */
    method Field(name: string, alias: Option<string>, arguments: seq<Entry>, block: seq<LegacyCall>)
      returns (r: Result<LegacyState>)
      requires receiver.OperationReceiver?
      modifies this
      ensures r == Apply(receiver, old(Current()), FieldCall(name, alias, arguments, block))
      ensures r.Ok? ==> Current() == r.value
      ensures r.Err? ==> Current() == old(Current())
      decreases FieldCall(name, alias, arguments, block), 2
    {
      var child := InitializeField(name, alias, arguments, block);
      r := Push(child);
    }

    /**
     * `SelectionSet#__fragment(name)` pushes a spread; `Field#__fragment(name, &block)` calls a
     * two-argument constructor with one argument and raises.
     */
    method Fragment(name: string) returns (r: Result<LegacyState>)
      requires receiver.OperationReceiver? || receiver.FieldReceiver?
      modifies this
      ensures r == Apply(receiver, old(Current()), FragmentCall(name))
      ensures r.Ok? ==> Current() == r.value
      ensures r.Err? ==> Current() == old(Current())
    {
      if receiver.FieldReceiver? {
        return Err(RubyError("wrong number of arguments (given 1, expected 2)"));
      }
      r := Push(Ok(FragmentSpread(name, [])));
    }

    /** `__inline_fragment(type, &block)`, with the type passed as the type. */
    method InlineFragment(typeArgument: Option<string>, hasBlock: bool, block: seq<LegacyCall>)
      returns (r: Result<LegacyState>)
      requires receiver.OperationReceiver? || receiver.FieldReceiver?
      modifies this
      ensures r == Apply(receiver, old(Current()), InlineFragmentCall(typeArgument, hasBlock, block))
      ensures r.Ok? ==> Current() == r.value
      ensures r.Err? ==> Current() == old(Current())
      decreases InlineFragmentCall(typeArgument, hasBlock, block), 2
    {
      var arguments := InlineFragmentArguments(typeArgument);
      var child := InitializeInlineFragment(arguments.0, arguments.1, hasBlock, block);
      r := Push(child);
    }

    /** `Operation#__var(name, type, default:, directives:)`: the definition is appended, even under a name already used. */
    method Var(name: Value, typeName: Value, default: Default, directives: Value) returns (r: Result<LegacyState>)
      requires receiver.OperationReceiver?
      modifies this
      ensures r == Apply(receiver, old(Current()), VarCall(name, typeName, default, directives))
      ensures r.Ok? ==> Current() == r.value
      ensures r.Err? ==> Current() == old(Current())
    {
      var d := VariableDefinitionContainer.New(name, typeName, default, directives);
      if d.Err? {
        return Err(d.error);
      }
      variableDefinitions := variableDefinitions + [d.value];
      return Ok(Current());
    }

    /** `ExecutableDocument#query`, `#mutation` and `#subscription(name = nil, &block)` */
    method Operation(operationType: Nodes.OperationType, name: Option<string>, block: seq<LegacyCall>)
      returns (r: Result<LegacyState>)
      requires receiver.DocumentReceiver?
      modifies this
      ensures r == Apply(receiver, old(Current()), OperationCall(operationType, name, block))
      ensures r.Ok? ==> Current() == r.value
      ensures r.Err? ==> Current() == old(Current())
      decreases OperationCall(operationType, name, block), 2
    {
      var child := InitializeOperation(operationType, name, [], [], block);
      r := Push(child);
    }

    /** `ExecutableDocument#fragment(name, type, &block)` */
    method FragmentDefinition(name: Value, typeCondition: Value, block: seq<LegacyCall>)
      returns (r: Result<LegacyState>)
      requires receiver.DocumentReceiver?
      modifies this
      ensures r == Apply(receiver, old(Current()), FragmentDefinitionCall(name, typeCondition, block))
      ensures r.Ok? ==> Current() == r.value
      ensures r.Err? ==> Current() == old(Current())
      decreases FragmentDefinitionCall(name, typeCondition, block), 2
    {
      var child := InitializeFragmentDefinition(name, typeCondition, block, false);
      r := Push(child);
    }

    /** Dispatches one call of a block; a method the receiver does not define raises. */
    method Perform(c: LegacyCall) returns (r: Result<LegacyState>)
      modifies this
      ensures r == Apply(receiver, old(Current()), c)
      ensures r.Ok? ==> Current() == r.value
      ensures r.Err? ==> Current() == old(Current())
      decreases c, 3
    {
      if !Responds(receiver, c) {
        return Err(RubyError("undefined method"));
      }
      match c
      case FieldCall(name, alias, arguments, block) =>
        r := Field(name, alias, arguments, block);
      case FragmentCall(name) =>
        r := Fragment(name);
      case InlineFragmentCall(typeArgument, hasBlock, block) =>
        r := InlineFragment(typeArgument, hasBlock, block);
      case VarCall(name, typeName, default, directives) =>
        r := Var(name, typeName, default, directives);
      case OperationCall(operationType, name, block) =>
        r := Operation(operationType, name, block);
      case FragmentDefinitionCall(name, typeCondition, block) =>
        r := FragmentDefinition(name, typeCondition, block);
    }

    /** `instance_eval(&block)`: performs the calls in order and stops at the first that raises. */
    method Run(calls: seq<LegacyCall>) returns (r: Result<LegacyState>)
      modifies this
      ensures r == RunBlock(receiver, old(Current()), calls)
      ensures r.Ok? ==> Current() == r.value
      decreases calls, 0
    {
      var i := 0;
      while i < |calls|
        invariant 0 <= i <= |calls|
        invariant RunBlock(receiver, old(Current()), calls) == RunBlock(receiver, Current(), calls[i..])
      {
        assert calls[i..][0] == calls[i] && calls[i..][1..] == calls[i + 1..];
        var step := Perform(calls[i]);
        if step.Err? {
          return Err(step.error);
        }
        i := i + 1;
      }
      return Ok(Current());
    }
  }

  /** `Field.new(name, __alias:, **arguments, &block)` */
  method InitializeField(name: string, alias: Option<string>, arguments: seq<Entry>, block: seq<LegacyCall>)
    returns (r: Result<LegacyNode>)
    ensures r == Construct(OperationReceiver, FieldCall(name, alias, arguments, block))
    decreases FieldCall(name, alias, arguments, block), 1
  {
    var node := new LegacyNodeBuilder(FieldReceiver, []);
    var st := node.Run(block);
    if st.Err? {
      return Err(st.error);
    }
    return Ok(LegacyNodes.Field(name, alias, arguments, node.nodes));
  }

  /** `InlineFragment.new(name, type, &block)`: the three argument checks, then the block. */
  method InitializeInlineFragment(name: Option<string>, typeCondition: Option<string>, hasBlock: bool, block: seq<LegacyCall>)
    returns (r: Result<LegacyNode>)
    ensures r == LegacyNodes.NewInlineFragment(name, typeCondition, hasBlock, block)
    decreases block, 1
  {
    if name.Some? && typeCondition.Some? {
      return Err(DslError("Only one from `name` or `type` arguments must be specified"));
    }
    if name.Some? && hasBlock {
      return Err(DslError("Sub-fields must not be specified for fragment"));
    }
    if typeCondition.Some? && !hasBlock {
      return Err(DslError("Sub-fields must be specified for inline fragment"));
    }
    var node := new LegacyNodeBuilder(SugarOnlyReceiver, []);
    var st := node.Run(block);
    if st.Err? {
      return Err(st.error);
    }
    return Ok(LegacyNodes.InlineFragment(name, typeCondition, node.nodes));
  }

  /** `Operation.new(type, name, variable_definitions, directives, &block)` */
  method InitializeOperation(operationType: Nodes.OperationType, name: Option<string>, definitions: seq<Entry>,
                      directives: seq<Value>, block: seq<LegacyCall>) returns (r: Result<LegacyNode>)
    ensures r == LegacyNodes.NewOperation(operationType, name, definitions, directives, block)
    decreases block, 1
  {
    var defs := Nodes.NormaliseDefinitions(definitions);
    if defs.Err? {
      return Err(defs.error);
    }
    var ds := Nodes.NormaliseDirectives(directives);
    if ds.Err? {
      return Err(ds.error);
    }
    var node := new LegacyNodeBuilder(OperationReceiver, NodeFormatter.DefinitionValues(defs.value));
    var st := node.Run(block);
    if st.Err? {
      return Err(st.error);
    }
    return Ok(LegacyNodes.Operation(operationType, name, node.variableDefinitions, ds.value, node.nodes));
  }

  /** `FragmentOperation.new(name, type, &block)`, and `Fragment.new` when `isFragment` holds. */
  method InitializeFragmentDefinition(name: Value, typeCondition: Value, block: seq<LegacyCall>, isFragment: bool)
    returns (r: Result<LegacyNode>)
    ensures r == LegacyNodes.NewFragmentDefinition(name, typeCondition, block, isFragment)
    decreases block, 1
  {
    var n := RequiredText(name, "`name` must be specified");
    if n.Err? {
      return Err(n.error);
    }
    var t := RequiredText(typeCondition, "`type` must be specified");
    if t.Err? {
      return Err(t.error);
    }
    var node := new LegacyNodeBuilder(SugarOnlyReceiver, []);
    var st := node.Run(block);
    if st.Err? {
      return Err(st.error);
    }
    return Ok(if isFragment then LegacyNodes.Fragment(n.value, t.value, node.nodes)
              else FragmentOperation(n.value, t.value, node.nodes));
  }

  /** `ExecutableDocument.new(&block)` */
  method InitializeDocument(block: seq<LegacyCall>) returns (r: Result<LegacyNode>)
    ensures r == BuildDocument(block)
  {
    var node := new LegacyNodeBuilder(DocumentReceiver, []);
    var st := node.Run(block);
    if st.Err? {
      return Err(st.error);
    }
    return Ok(Document(node.nodes));
  }
}

/**
 * The builder as the current generation runs it: each node is an object whose initializer
 * validates and normalises its arguments and then evaluates its block against itself, and each
 * builder method constructs a child and pushes it onto the receiver's `@__nodes` (or, for
 * `__var`, stores a definition in `@__variable_definitions`). Every method is proved to agree
 * with the functions of module Nodes.
 */
module Builder {
  import opened Wrappers
  import opened Values
  import opened Nodes
  import VariableDefinitionContainer

  class NodeBuilder {
    const receiver: Receiver
    var nodes: seq<Node>
    var variableDefinitions: Definitions

    function Current(): State
      reads this
    {
      State(nodes, variableDefinitions)
    }

    constructor (receiver: Receiver, variableDefinitions: Definitions)
      ensures this.receiver == receiver
      ensures nodes == [] && this.variableDefinitions == variableDefinitions
    {
      this.receiver := receiver;
      nodes := [];
      this.variableDefinitions := variableDefinitions;
    }

    /** Pushes a constructed child; on failure nothing changes. */
    method Append(child: Result<Node>) returns (r: Result<State>)
      modifies this
      ensures r.Ok? <==> child.Ok?
      ensures child.Ok? ==> nodes == old(nodes) + [child.value] && r.value == Current()
      ensures child.Err? ==> nodes == old(nodes) && r == Err(child.error)
      ensures variableDefinitions == old(variableDefinitions)
    {
      if child.Err? {
        return Err(child.error);
      }
      nodes := nodes + [child.value];
      return Ok(Current());
    }

    /** `__field(name, __alias:, __directives:, **arguments, &block)` */
    method Field(name: string, alias: Option<string>, arguments: seq<Entry>, directives: seq<Value>, block: seq<Call>)
      returns (r: Result<State>)
      requires !receiver.DocumentReceiver?
      modifies this
      ensures r == Apply(receiver, old(Current()), FieldCall(name, alias, arguments, directives, block))
      ensures r.Ok? ==> Current() == r.value
      ensures r.Err? ==> Current() == old(Current())
      decreases FieldCall(name, alias, arguments, directives, block), 2
    {
      var child := NewField(name, alias, arguments, directives, block);
      r := Append(child);
    }

    /** `__fragment(name, __directives:)` */
    method Fragment(name: string, directives: seq<Value>) returns (r: Result<State>)
      requires !receiver.DocumentReceiver?
      modifies this
      ensures r == Apply(receiver, old(Current()), FragmentCall(name, directives))
      ensures r.Ok? ==> Current() == r.value
      ensures r.Err? ==> Current() == old(Current())
    {
      var child := NewFragmentSpread(name, directives);
      r := Append(child);
    }

    /** `__inline_fragment(type, __directives:, &block)` */
    method InlineFragment(onType: Option<string>, directives: seq<Value>, hasBlock: bool, block: seq<Call>)
      returns (r: Result<State>)
      requires !receiver.DocumentReceiver?
      modifies this
      ensures r == Apply(receiver, old(Current()), InlineFragmentCall(onType, directives, hasBlock, block))
      ensures r.Ok? ==> Current() == r.value
      ensures r.Err? ==> Current() == old(Current())
      decreases InlineFragmentCall(onType, directives, hasBlock, block), 2
    {
      var child := NewInlineFragment(onType, directives, hasBlock, block);
      r := Append(child);
    }

    /** `__var(name, type, default:, directives:)`: the definition is stored under its name, replacing any earlier one. */
    method Var(name: Value, typeName: Value, default: Default, directives: Value) returns (r: Result<State>)
      requires receiver.OperationReceiver?
      modifies this
      ensures r == Apply(receiver, old(Current()), VarCall(name, typeName, default, directives))
      ensures r.Ok? ==> Current() == r.value
      ensures r.Err? ==> Current() == old(Current())
    {
      var d := VariableDefinitionContainer.New(name, typeName, default, directives);
      if d.Err? {
        return Err(d.error);
      }
      variableDefinitions := Put(variableDefinitions, d.value.name, d.value);
      return Ok(Current());
    }

    /** `query`, `mutation` and `subscription(name, variable_definitions, directives, &block)` */
    method Operation(operationType: OperationType, name: Option<string>, definitions: seq<Entry>,
                     directives: seq<Value>, block: seq<Call>) returns (r: Result<State>)
      requires receiver.DocumentReceiver?
      modifies this
      ensures r == Apply(receiver, old(Current()), OperationCall(operationType, name, definitions, directives, block))
      ensures r.Ok? ==> Current() == r.value
      ensures r.Err? ==> Current() == old(Current())
      decreases OperationCall(operationType, name, definitions, directives, block), 2
    {
      var child := NewOperation(operationType, name, definitions, directives, block);
      r := Append(child);
    }

    /** `fragment(name, type, directives, &block)` */
    method FragmentDefinition(name: Value, typeCondition: Value, directives: seq<Value>, block: seq<Call>)
      returns (r: Result<State>)
      requires receiver.DocumentReceiver?
      modifies this
      ensures r == Apply(receiver, old(Current()), FragmentDefinitionCall(name, typeCondition, directives, block))
      ensures r.Ok? ==> Current() == r.value
      ensures r.Err? ==> Current() == old(Current())
      decreases FragmentDefinitionCall(name, typeCondition, directives, block), 2
    {
      var child := NewFragmentOperation(name, typeCondition, directives, block);
      r := Append(child);
    }

    /** Dispatches one call of a block; a method the receiver does not define raises. */
    method Perform(c: Call) returns (r: Result<State>)
      modifies this
      ensures r == Apply(receiver, old(Current()), c)
      ensures r.Ok? ==> Current() == r.value
      ensures r.Err? ==> Current() == old(Current())
      decreases c, 3
    {
      if !Responds(receiver, c) {
        return Err(RubyError("undefined method"));
      }
      match c
      case FieldCall(name, alias, arguments, directives, block) =>
        r := Field(name, alias, arguments, directives, block);
      case FragmentCall(name, directives) =>
        r := Fragment(name, directives);
      case InlineFragmentCall(onType, directives, hasBlock, block) =>
        r := InlineFragment(onType, directives, hasBlock, block);
      case VarCall(name, typeName, default, directives) =>
        r := Var(name, typeName, default, directives);
      case OperationCall(operationType, name, definitions, directives, block) =>
        r := Operation(operationType, name, definitions, directives, block);
      case FragmentDefinitionCall(name, typeCondition, directives, block) =>
        r := FragmentDefinition(name, typeCondition, directives, block);
    }

    /** `instance_eval(&block)`: performs the calls in order and stops at the first that raises. */
    method Run(calls: seq<Call>) returns (r: Result<State>)
      modifies this
      ensures r == RunBlock(receiver, old(Current()), calls)
      ensures r.Ok? ==> Current() == r.value
      decreases calls, 0
    {
      var i := 0;
      while i < |calls|
        invariant 0 <= i <= |calls|
        invariant RunBlock(receiver, old(Current()), calls) == RunBlock(receiver, Current(), calls[i..])
      {
        assert calls[i..][0] == calls[i] && calls[i..][1..] == calls[i + 1..];
        var step := Perform(calls[i]);
        if step.Err? {
          return Err(step.error);
        }
        i := i + 1;
      }
      return Ok(Current());
    }
  }

  /** `Field.new(name, alias, arguments, directives, &block)` */
  method NewField(name: string, alias: Option<string>, arguments: seq<Entry>, directives: seq<Value>, block: seq<Call>)
    returns (r: Result<Node>)
    ensures r == Construct(FieldCall(name, alias, arguments, directives, block))
    decreases FieldCall(name, alias, arguments, directives, block), 1
  {
    var ds := NormaliseDirectives(directives);
    if ds.Err? {
      return Err(ds.error);
    }
    var node := new NodeBuilder(SelectionReceiver, []);
    var st := node.Run(block);
    if st.Err? {
      return Err(st.error);
    }
    return Ok(Nodes.Field(name, alias, arguments, ds.value, node.nodes));
  }

  /** `FragmentSpread.new(name, directives)`: a spread takes no block. */
  method NewFragmentSpread(name: string, directives: seq<Value>) returns (r: Result<Node>)
    ensures r == Construct(FragmentCall(name, directives))
  {
    var ds := NormaliseDirectives(directives);
    if ds.Err? {
      return Err(ds.error);
    }
    return Ok(FragmentSpread(name, ds.value));
  }

  /** `InlineFragment.new(type, directives, &block)`: the block is mandatory. */
  method NewInlineFragment(onType: Option<string>, directives: seq<Value>, hasBlock: bool, block: seq<Call>)
    returns (r: Result<Node>)
    ensures r == Construct(InlineFragmentCall(onType, directives, hasBlock, block))
    decreases InlineFragmentCall(onType, directives, hasBlock, block), 1
  {
    if !hasBlock {
      return Err(DslError("Sub-fields must be specified for inline fragment"));
    }
    var ds := NormaliseDirectives(directives);
    if ds.Err? {
      return Err(ds.error);
    }
    var node := new NodeBuilder(SelectionReceiver, []);
    var st := node.Run(block);
    if st.Err? {
      return Err(st.error);
    }
    return Ok(Nodes.InlineFragment(onType, ds.value, node.nodes));
  }

  /** `Operation.new(type, name, variable_definitions, directives, &block)` */
  method NewOperation(operationType: OperationType, name: Option<string>, definitions: seq<Entry>,
                      directives: seq<Value>, block: seq<Call>) returns (r: Result<Node>)
    ensures r == Construct(OperationCall(operationType, name, definitions, directives, block))
    decreases OperationCall(operationType, name, definitions, directives, block), 1
  {
    var i := 0;
    while i < |definitions|
      invariant 0 <= i <= |definitions|
      invariant forall j | 0 <= j < i :: definitions[j].0 != ""
    {
      if definitions[i].0 == "" {
        return Err(DslError("Variable name must be specified"));
      }
      i := i + 1;
    }
    var defs := NormaliseDefinitions(definitions);
    if defs.Err? {
      return Err(defs.error);
    }
    var ds := NormaliseDirectives(directives);
    if ds.Err? {
      return Err(ds.error);
    }
    var node := new NodeBuilder(OperationReceiver, defs.value);
    var st := node.Run(block);
    if st.Err? {
      return Err(st.error);
    }
    return Ok(Nodes.Operation(operationType, name, node.variableDefinitions, ds.value, node.nodes));
  }

  /** `FragmentOperation.new(name, type, directives, &block)` */
  method NewFragmentOperation(name: Value, typeCondition: Value, directives: seq<Value>, block: seq<Call>)
    returns (r: Result<Node>)
    ensures r == Construct(FragmentDefinitionCall(name, typeCondition, directives, block))
    decreases FragmentDefinitionCall(name, typeCondition, directives, block), 1
  {
    var n := RequiredText(name, "`name` must be specified");
    if n.Err? {
      return Err(n.error);
    }
    var t := RequiredText(typeCondition, "`type` must be specified");
    if t.Err? {
      return Err(t.error);
    }
    var ds := NormaliseDirectives(directives);
    if ds.Err? {
      return Err(ds.error);
    }
    var node := new NodeBuilder(SelectionReceiver, []);
    var st := node.Run(block);
    if st.Err? {
      return Err(st.error);
    }
    return Ok(FragmentOperation(n.value, t.value, ds.value, node.nodes));
  }

  /** `ExecutableDocument.new(&block)` */
  method NewDocument(block: seq<Call>) returns (r: Result<Node>)
    ensures r == BuildDocument(block)
  {
    var node := new NodeBuilder(DocumentReceiver, []);
    var st := node.Run(block);
    if st.Err? {
      return Err(st.error);
    }
    return Ok(ExecutableDocument(node.nodes));
  }
}

/**
 * The current generation's document model: the node tree, and the builder calls a block makes on
 * the node it builds. A block is the sequence of explicit builder calls it runs (`__field`,
 * `__fragment`, `__inline_fragment`, `__var` on a selection set or an operation; `query`,
 * `mutation`, `subscription`, `fragment` on a document); each call constructs its child, running
 * the child's own block first, and then appends it to the receiver's children.
 */
module Nodes {
  import opened Wrappers
  import opened Values
  import DirectiveContainer
  import VariableDefinitionContainer

  datatype OperationType = Query | Mutation | Subscription

  /** The ordered map `name => variable definition` of an operation. */
  type Definitions = seq<(string, VariableDefinition)>

  datatype Node =
    | ExecutableDocument(nodes: seq<Node>)
    | Operation(operationType: OperationType, operationName: Option<string>, variableDefinitions: Definitions,
                directives: seq<Directive>, nodes: seq<Node>)
    | FragmentOperation(name: string, typeCondition: string, directives: seq<Directive>, nodes: seq<Node>)
    | Field(name: string, alias: Option<string>, arguments: seq<Entry>, directives: seq<Directive>, nodes: seq<Node>)
    | FragmentSpread(name: string, directives: seq<Directive>)
    | InlineFragment(onType: Option<string>, directives: seq<Directive>, nodes: seq<Node>)
    | BaseNode(nodeName: Option<string>, nodes: seq<Node>)   // an instance of `Node` itself, or of a class the formatter does not know

  /**
   * One builder call in a block, with the calls of the block it passes; passing no block is
   * passing an empty one, except to `__inline_fragment`, which records whether it was given one.
   */
  datatype Call =
    | FieldCall(name: string, alias: Option<string>, arguments: seq<Entry>, directives: seq<Value>, block: seq<Call>)
    | FragmentCall(name: string, directives: seq<Value>)
    | InlineFragmentCall(onType: Option<string>, directives: seq<Value>, hasBlock: bool, block: seq<Call>)
    | VarCall(varName: Value, varType: Value, default: Default, varDirectives: Value)
    | OperationCall(operationType: OperationType, operationName: Option<string>, variableDefinitions: seq<Entry>,
                    directives: seq<Value>, block: seq<Call>)
    | FragmentDefinitionCall(fragmentName: Value, fragmentType: Value, directives: seq<Value>, block: seq<Call>)

  /** Which builder methods a node under construction responds to. */
  datatype Receiver =
    | DocumentReceiver    // `ExecutableDocument`: query, mutation, subscription, fragment
    | OperationReceiver   // `Operation`: the selection-set methods and `__var`
    | SelectionReceiver   // `Field`, `FragmentOperation`, `InlineFragment`: the selection-set methods

  /** The mutable part of a node under construction: `@__nodes`, and an operation's `@__variable_definitions`. */
  datatype State = State(nodes: seq<Node>, variableDefinitions: Definitions)

  const Empty := State([], [])

  predicate Responds(receiver: Receiver, c: Call)
  {
    match receiver
    case DocumentReceiver => c.OperationCall? || c.FragmentDefinitionCall?
    case OperationReceiver => c.FieldCall? || c.FragmentCall? || c.InlineFragmentCall? || c.VarCall?
    case SelectionReceiver => c.FieldCall? || c.FragmentCall? || c.InlineFragmentCall?
  }

  /** The entry for `key`, if the map has one. */
  function Find(m: Definitions, key: string): (r: Option<VariableDefinition>)
    ensures r.Some? ==> exists i | 0 <= i < |m| :: m[i] == (key, r.value)
    ensures r.None? <==> forall i | 0 <= i < |m| :: m[i].0 != key
  {
    if m == [] then None
    else if m[0].0 == key then Some(m[0].1)
    else
      var r := Find(m[1..], key);
      assert forall i | 1 <= i < |m| :: m[i] == m[1..][i - 1];
      r
  }

  function Keys(m: Definitions): seq<string>
  {
    if m == [] then [] else [m[0].0] + Keys(m[1..])
  }

  /** `hash[key] = value`: an existing key keeps its place and takes the new value; a new key goes last. */
  function Put(m: Definitions, key: string, value: VariableDefinition): (r: Definitions)
  {
    if m == [] then [(key, value)]
    else if m[0].0 == key then [(key, value)] + m[1..]
    else [m[0]] + Put(m[1..], key, value)
  }

  /** `directives.map { |directive| Directive.from(directive) }`. */
  function NormaliseDirectives(directives: seq<Value>): Result<seq<Directive>>
  {
    VariableDefinitionContainer.DirectivesFrom(directives)
  }

  /**
   * `variable_definitions.transform_values { VariableDefinition.from(...) }`: each definition is
   * normalised under its own key, which is the variable's name.
   */
  function NormaliseDefinitions(definitions: seq<Entry>): (r: Result<Definitions>)
    ensures r.Ok? ==> |r.value| == |definitions|
    ensures r.Ok? ==> forall i | 0 <= i < |definitions| :: r.value[i].0 == definitions[i].0
  {
    if definitions == [] then Ok([])
    else
      var first :- VariableDefinitionContainer.From(Sym(definitions[0].0), definitions[0].1);
      var rest :- NormaliseDefinitions(definitions[1..]);
      Ok([(definitions[0].0, first)] + rest)
  }

  /** The constructor of the node a call builds: validation, normalisation, then the block. */
  function Construct(c: Call): Result<Node>
    requires !c.VarCall?
    decreases c, 1
  {
    match c
    case FieldCall(name, alias, arguments, directives, block) =>
      var ds :- NormaliseDirectives(directives);
      var st :- RunBlock(SelectionReceiver, Empty, block);
      Ok(Field(name, alias, arguments, ds, st.nodes))
    case FragmentCall(name, directives) =>
      var ds :- NormaliseDirectives(directives);
      Ok(FragmentSpread(name, ds))
    case InlineFragmentCall(onType, directives, hasBlock, block) =>
      if !hasBlock then Err(DslError("Sub-fields must be specified for inline fragment"))
      else
        var ds :- NormaliseDirectives(directives);
        var st :- RunBlock(SelectionReceiver, Empty, block);
        Ok(InlineFragment(onType, ds, st.nodes))
    case OperationCall(operationType, name, definitions, directives, block) =>
      if exists i | 0 <= i < |definitions| :: definitions[i].0 == "" then Err(DslError("Variable name must be specified"))
      else
        var defs :- NormaliseDefinitions(definitions);
        var ds :- NormaliseDirectives(directives);
        var st :- RunBlock(OperationReceiver, State([], defs), block);
        Ok(Operation(operationType, name, st.variableDefinitions, ds, st.nodes))
    case FragmentDefinitionCall(name, typeCondition, directives, block) =>
      var n :- RequiredText(name, "`name` must be specified");
      var t :- RequiredText(typeCondition, "`type` must be specified");
      var ds :- NormaliseDirectives(directives);
      var st :- RunBlock(SelectionReceiver, Empty, block);
      Ok(FragmentOperation(n, t, ds, st.nodes))
  }

  /**
   * One call made on a receiver in state `st`: a builder method constructs its node and appends
   * it, `__var` writes its definition into the map; a method the receiver does not have fails.
   */
  function Apply(receiver: Receiver, st: State, c: Call): Result<State>
    decreases c, 2
  {
    if !Responds(receiver, c) then Err(RubyError("undefined method"))
    else if c.VarCall? then
      var d :- VariableDefinitionContainer.New(c.varName, c.varType, c.default, c.varDirectives);
      Ok(State(st.nodes, Put(st.variableDefinitions, d.name, d)))
    else
      var node :- Construct(c);
      Ok(State(st.nodes + [node], st.variableDefinitions))
  }

  /** `instance_eval(&block)`: the calls run in order on the same receiver; the first failure ends the block. */
  function RunBlock(receiver: Receiver, st: State, calls: seq<Call>): Result<State>
    decreases calls, 0
  {
    if calls == [] then Ok(st)
    else
      var next :- Apply(receiver, st, calls[0]);
      RunBlock(receiver, next, calls[1..])
  }

  /** `ExecutableDocument.new(&block)`: a document has no name; its children are what its block appends. */
  function BuildDocument(block: seq<Call>): Result<Node>
  {
    var st :- RunBlock(DocumentReceiver, Empty, block);
    Ok(ExecutableDocument(st.nodes))
  }
}

/** What the builder guarantees about the trees it produces, and how blocks compose. */
module NodeProperties {
  import opened Wrappers
  import opened Values
  import opened Nodes

  predicate IsDefinition(n: Node) { n.Operation? || n.FragmentOperation? }

  predicate IsSelection(n: Node) { n.Field? || n.FragmentSpread? || n.InlineFragment? }

  /** The children a receiver's builder methods can append. */
  predicate Admits(receiver: Receiver, n: Node)
  {
    if receiver.DocumentReceiver? then IsDefinition(n) else IsSelection(n)
  }

  predicate NamedDefinitions(defs: Definitions)
  {
    forall i | 0 <= i < |defs| :: defs[i].0 != ""
  }

  /**
   * The tree follows the executable-document grammar: a document holds operations and fragment
   * definitions, every other node holds selections, variables and fragments are named, fragment
   * definitions have a type condition, and no bare base node occurs.
   */
  predicate WellFormed(n: Node)
  {
    match n
    case ExecutableDocument(nodes) =>
      forall i | 0 <= i < |nodes| :: IsDefinition(nodes[i]) && WellFormed(nodes[i])
    case Operation(_, _, defs, _, nodes) =>
      NamedDefinitions(defs) && forall i | 0 <= i < |nodes| :: IsSelection(nodes[i]) && WellFormed(nodes[i])
    case FragmentOperation(name, typeCondition, _, nodes) =>
      name != "" && typeCondition != "" &&
      forall i | 0 <= i < |nodes| :: IsSelection(nodes[i]) && WellFormed(nodes[i])
    case Field(_, _, _, _, nodes) =>
      forall i | 0 <= i < |nodes| :: IsSelection(nodes[i]) && WellFormed(nodes[i])
    case FragmentSpread(_, _) => true
    case InlineFragment(_, _, nodes) =>
      forall i | 0 <= i < |nodes| :: IsSelection(nodes[i]) && WellFormed(nodes[i])
    case BaseNode(_, _) => false
  }

  /** A state in which every child fits the receiver and the variable map has named entries. */
  predicate Fits(receiver: Receiver, st: State)
  {
    (forall i | 0 <= i < |st.nodes| :: Admits(receiver, st.nodes[i]) && WellFormed(st.nodes[i])) &&
    NamedDefinitions(st.variableDefinitions)
  }

  lemma PutNamed(m: Definitions, key: string, value: VariableDefinition)
    requires NamedDefinitions(m) && key != ""
    ensures NamedDefinitions(Put(m, key, value))
  {
    if m != [] && m[0].0 != key {
      assert NamedDefinitions(m[1..]) by {
        assert forall i | 1 <= i < |m| :: m[i] == m[1..][i - 1];
      }
      PutNamed(m[1..], key, value);
    }
  }

  /** A successful builder call yields a well-formed node of the kind its receiver accepts. */
  lemma {:induction false} ConstructWellFormed(c: Call)
    requires !c.VarCall?
    ensures Construct(c).Ok? ==> WellFormed(Construct(c).value)
    ensures Construct(c).Ok? ==> (c.FieldCall? <==> Construct(c).value.Field?)
    ensures Construct(c).Ok? ==> (c.FragmentCall? <==> Construct(c).value.FragmentSpread?)
    ensures Construct(c).Ok? ==> (c.InlineFragmentCall? <==> Construct(c).value.InlineFragment?)
    ensures Construct(c).Ok? ==> (c.OperationCall? <==> Construct(c).value.Operation?)
    ensures Construct(c).Ok? ==> (c.FragmentDefinitionCall? <==> Construct(c).value.FragmentOperation?)
    decreases c, 1
  {
    match c
    case FieldCall(_, _, _, _, block) =>
      RunBlockWellFormed(SelectionReceiver, Empty, block);
    case FragmentCall(_, _) =>
    case InlineFragmentCall(_, _, _, block) =>
      RunBlockWellFormed(SelectionReceiver, Empty, block);
    case OperationCall(_, _, definitions, _, block) =>
      var defs := NormaliseDefinitions(definitions);
      if defs.Ok? && !(exists i | 0 <= i < |definitions| :: definitions[i].0 == "") {
        RunBlockWellFormed(OperationReceiver, State([], defs.value), block);
      }
    case FragmentDefinitionCall(_, _, _, block) =>
      RunBlockWellFormed(SelectionReceiver, Empty, block);
  }

  lemma {:induction false} ApplyWellFormed(receiver: Receiver, st: State, c: Call)
    requires Fits(receiver, st)
    ensures Apply(receiver, st, c).Ok? ==> Fits(receiver, Apply(receiver, st, c).value)
    decreases c, 2
  {
    if Responds(receiver, c) {
      if c.VarCall? {
        var d := VariableDefinitionContainer.New(c.varName, c.varType, c.default, c.varDirectives);
        if d.Ok? {
          PutNamed(st.variableDefinitions, d.value.name, d.value);
        }
      } else {
        ConstructWellFormed(c);
      }
    }
  }

  lemma {:induction false} RunBlockWellFormed(receiver: Receiver, st: State, calls: seq<Call>)
    requires Fits(receiver, st)
    ensures RunBlock(receiver, st, calls).Ok? ==> Fits(receiver, RunBlock(receiver, st, calls).value)
    decreases calls, 0
  {
    if calls != [] {
      ApplyWellFormed(receiver, st, calls[0]);
      var next := Apply(receiver, st, calls[0]);
      if next.Ok? {
        RunBlockWellFormed(receiver, next.value, calls[1..]);
      }
    }
  }

  /** Every document the builder produces is well formed. */
  lemma DocumentWellFormed(block: seq<Call>)
    ensures BuildDocument(block).Ok? ==> WellFormed(BuildDocument(block).value)
  {
    RunBlockWellFormed(DocumentReceiver, Empty, block);
  }

  /** A block that is two blocks in sequence runs the second from where the first stopped. */
  lemma {:induction false} RunBlockConcat(receiver: Receiver, st: State, first: seq<Call>, second: seq<Call>)
    ensures RunBlock(receiver, st, first + second) ==
      (match RunBlock(receiver, st, first)
       case Ok(mid) => RunBlock(receiver, mid, second)
       case Err(e) => Err(e))
    decreases first
  {
    if first == [] {
      assert first + second == second;
    } else {
      assert (first + second)[0] == first[0];
      assert (first + second)[1..] == first[1..] + second;
      var next := Apply(receiver, st, first[0]);
      if next.Ok? {
        RunBlockConcat(receiver, next.value, first[1..], second);
      }
    }
  }

  /** A block only ever appends children: what was there stays, in place, and each call adds at most one. */
  lemma {:induction false} RunBlockOnlyAppends(receiver: Receiver, st: State, calls: seq<Call>)
    ensures RunBlock(receiver, st, calls).Ok? ==>
      st.nodes <= RunBlock(receiver, st, calls).value.nodes &&
      |RunBlock(receiver, st, calls).value.nodes| <= |st.nodes| + |calls|
    ensures RunBlock(receiver, st, calls).Ok? && !receiver.OperationReceiver? ==>
      RunBlock(receiver, st, calls).value.variableDefinitions == st.variableDefinitions
    decreases calls
  {
    if calls != [] {
      var next := Apply(receiver, st, calls[0]);
      if next.Ok? {
        RunBlockOnlyAppends(receiver, next.value, calls[1..]);
      }
    }
  }

  /** Reference reading of a block of node calls: construct each child in order, stop at the first failure. */
  function Children(calls: seq<Call>): Result<seq<Node>>
    requires forall i | 0 <= i < |calls| :: !calls[i].VarCall?
  {
    if calls == [] then Ok([])
    else
      var first :- Construct(calls[0]);
      var rest :- Children(calls[1..]);
      Ok([first] + rest)
  }

  /** A block of calls its receiver defines appends exactly the children they construct, in call order. */
  lemma {:induction false} RunBlockAppendsChildren(receiver: Receiver, st: State, calls: seq<Call>)
    requires forall i | 0 <= i < |calls| :: Responds(receiver, calls[i]) && !calls[i].VarCall?
    ensures RunBlock(receiver, st, calls) ==
      (match Children(calls)
       case Ok(children) => Ok(State(st.nodes + children, st.variableDefinitions))
       case Err(e) => Err(e))
    decreases calls
  {
    if calls == [] {
      assert st.nodes + [] == st.nodes;
    } else {
      var next := Apply(receiver, st, calls[0]);
      if next.Ok? {
        var node := Construct(calls[0]).value;
        RunBlockAppendsChildren(receiver, next.value, calls[1..]);
        var rest := Children(calls[1..]);
        if rest.Ok? {
          assert st.nodes + [node] + rest.value == st.nodes + ([node] + rest.value);
        }
      }
    }
  }

  /**
   * `@__variable_definitions[name] = definition`: afterwards the name reads back the new
   * definition, every other name reads what it read before, and the names keep their order,
   * a new name going last.
   */
  lemma {:induction false} PutSemantics(m: Definitions, key: string, value: VariableDefinition, other: string)
    requires other != key
    ensures Find(Put(m, key, value), key) == Some(value)
    ensures Find(Put(m, key, value), other) == Find(m, other)
    ensures Keys(Put(m, key, value)) == if Find(m, key).Some? then Keys(m) else Keys(m) + [key]
  {
    if m != [] && m[0].0 != key {
      PutSemantics(m[1..], key, value, other);
      assert Put(m, key, value)[1..] == Put(m[1..], key, value);
      if Find(m[1..], key).None? {
        assert Keys(m) + [key] == [m[0].0] + (Keys(m[1..]) + [key]);
      }
    } else if m != [] {
      assert Put(m, key, value)[1..] == m[1..];
    }
  }
}

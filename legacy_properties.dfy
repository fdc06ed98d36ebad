/** What the earlier generation's builder and printer promise, and how its printing relates to the current formatter's. */
module LegacyNodeProperties {
  import opened Wrappers
  import opened Values
  import opened LegacyNodes
  import Nodes
  import Text
  import ArgumentFormatter
  import ArgumentMixin
  import NodeFormatter
  import ContainerDirectiveFormatter

  /** The children each receiver's explicit builder methods can push. */
  predicate Admits(receiver: LegacyReceiver, n: LegacyNode)
  {
    match receiver
    case DocumentReceiver => n.Operation? || n.FragmentOperation?
    case OperationReceiver => n.Field? || n.FragmentSpread? || n.InlineFragment?
    case FieldReceiver => n.InlineFragment?
    case SugarOnlyReceiver => false
  }

  /** The receiver a node's own block runs on. */
  function ReceiverOf(n: LegacyNode): LegacyReceiver
  {
    match n
    case Document(_) => DocumentReceiver
    case Operation(_, _, _, _, _) => OperationReceiver
    case Field(_, _, _, _) => FieldReceiver
    case _ => SugarOnlyReceiver
  }

  function ChildrenOf(n: LegacyNode): seq<LegacyNode>
  {
    if n.FragmentSpread? then [] else n.nodes
  }

  /**
   * The shape a tree built through the explicit methods has: every child is of a kind its
   * parent's builder methods push, fragment definitions are named and typed, and an inline
   * fragment carries no name.
   */
  predicate Shaped(n: LegacyNode)
  {
    (n.FragmentOperation? ==> n.name != "" && n.typeCondition != "") &&
    (n.InlineFragment? ==> n.fragmentName.None?) &&
    forall i | 0 <= i < |ChildrenOf(n)| :: Admits(ReceiverOf(n), ChildrenOf(n)[i]) && Shaped(ChildrenOf(n)[i])
  }

  predicate Fits(receiver: LegacyReceiver, nodes: seq<LegacyNode>)
  {
    forall i | 0 <= i < |nodes| :: Admits(receiver, nodes[i]) && Shaped(nodes[i])
  }

  lemma {:induction false} ConstructShaped(receiver: LegacyReceiver, c: LegacyCall)
    requires !c.VarCall? && Responds(receiver, c)
    ensures Construct(receiver, c).Ok? ==> Admits(receiver, Construct(receiver, c).value)
    ensures Construct(receiver, c).Ok? ==> Shaped(Construct(receiver, c).value)
    decreases c, 1
  {
    match c
    case FieldCall(_, _, _, block) =>
      RunBlockShaped(FieldReceiver, Empty, block);
    case FragmentCall(_) =>
    case InlineFragmentCall(_, _, block) =>
      RunBlockShaped(SugarOnlyReceiver, Empty, block);
    case OperationCall(operationType, name, block) =>
      var defs := Nodes.NormaliseDefinitions([]);
      if defs.Ok? {
        RunBlockShaped(OperationReceiver, LegacyState([], NodeFormatter.DefinitionValues(defs.value)), block);
      }
    case FragmentDefinitionCall(_, _, block) =>
      RunBlockShaped(SugarOnlyReceiver, Empty, block);
  }

  lemma {:induction false} RunBlockShaped(receiver: LegacyReceiver, st: LegacyState, calls: seq<LegacyCall>)
    requires Fits(receiver, st.nodes)
    ensures RunBlock(receiver, st, calls).Ok? ==> Fits(receiver, RunBlock(receiver, st, calls).value.nodes)
    decreases calls, 0
  {
    if calls != [] && Responds(receiver, calls[0]) {
      if !calls[0].VarCall? {
        ConstructShaped(receiver, calls[0]);
      }
      var next := Apply(receiver, st, calls[0]);
      if next.Ok? {
        RunBlockShaped(receiver, next.value, calls[1..]);
      }
    }
  }

  /** Every document the explicit builder methods produce holds only operations and fragment definitions of that shape. */
  lemma DocumentShaped(block: seq<LegacyCall>)
    ensures BuildDocument(block).Ok? ==> Shaped(BuildDocument(block).value)
  {
    RunBlockShaped(DocumentReceiver, Empty, block);
  }

  /**
   * A block only pushes: the earlier children and definitions stay in front, and every call
   * that succeeds adds exactly one node or one definition, so `__var` keeps duplicate names.
   */
  lemma {:induction false} RunBlockOnlyPushes(receiver: LegacyReceiver, st: LegacyState, calls: seq<LegacyCall>)
    ensures RunBlock(receiver, st, calls).Ok? ==> st.nodes <= RunBlock(receiver, st, calls).value.nodes
    ensures RunBlock(receiver, st, calls).Ok? ==>
      st.variableDefinitions <= RunBlock(receiver, st, calls).value.variableDefinitions
    ensures RunBlock(receiver, st, calls).Ok? ==>
      |RunBlock(receiver, st, calls).value.nodes| + |RunBlock(receiver, st, calls).value.variableDefinitions| ==
      |st.nodes| + |st.variableDefinitions| + |calls|
    decreases calls
  {
    if calls != [] {
      var next := Apply(receiver, st, calls[0]);
      if next.Ok? {
        RunBlockOnlyPushes(receiver, next.value, calls[1..]);
      }
    }
  }

  /** The blocks of the node kinds filled only through the dynamic sugar accept no explicit call. */
  lemma SugarOnlyBlocks(st: LegacyState, calls: seq<LegacyCall>)
    ensures RunBlock(SugarOnlyReceiver, st, calls) == if calls == [] then Ok(st) else Err(RubyError("undefined method"))
  {
    if calls != [] {
      assert Apply(SugarOnlyReceiver, st, calls[0]) == Err(RubyError("undefined method"));
    }
  }

  /** `Field#__fragment(name)` passes one argument to a constructor that takes two, so it always raises. */
  lemma FieldFragmentRaises(name: string)
    ensures Apply(FieldReceiver, Empty, FragmentCall(name)).Err?
    ensures Apply(OperationReceiver, Empty, FragmentCall(name)) == Ok(LegacyState([FragmentSpread(name, [])], []))
  {
    assert Empty.nodes + [FragmentSpread(name, [])] == [FragmentSpread(name, [])];
  }

  /**
   * As written, `__inline_fragment(type) { ... }` hands the type to the name parameter, which
   * refuses a block: every inline fragment given with a block raises.
   */
  lemma InlineFragmentAsWrittenRaises(typeCondition: string, block: seq<LegacyCall>)
    ensures var arguments := InlineFragmentArgumentsAsWritten(Some(typeCondition));
      NewInlineFragment(arguments.0, arguments.1, true, block) == Err(DslError("Sub-fields must not be specified for fragment"))
  {
  }

  /** A concrete input: `__inline_fragment("User") { }` raises as written, and prints `... on User` as intended. */
  lemma InlineFragmentWitness()
    ensures var arguments := InlineFragmentArgumentsAsWritten(Some("User"));
      NewInlineFragment(arguments.0, arguments.1, true, []) == Err(DslError("Sub-fields must not be specified for fragment"))
    ensures var arguments := InlineFragmentArgumentsAsWritten(Some("User"));
      NewInlineFragment(arguments.0, arguments.1, false, []) == Ok(InlineFragment(Some("User"), None, []))
    ensures ToGql(InlineFragment(Some("User"), None, []), 0) == Ok("... User")
    ensures Construct(OperationReceiver, InlineFragmentCall(Some("User"), true, [])) == Ok(InlineFragment(None, Some("User"), []))
    ensures ToGql(InlineFragment(None, Some("User"), []), 0) == Ok("... on User")
  {
    AsWrittenUserFragment();
    CorrectedUserFragment();
  }

  lemma AsWrittenUserFragment()
    ensures var arguments := InlineFragmentArgumentsAsWritten(Some("User"));
      NewInlineFragment(arguments.0, arguments.1, false, []) == Ok(InlineFragment(Some("User"), None, []))
    ensures ToGql(InlineFragment(Some("User"), None, []), 0) == Ok("... User")
  {
    var asWritten := InlineFragmentArgumentsAsWritten(Some("User"));
    assert NewInlineFragment(asWritten.0, asWritten.1, false, []) == Ok(InlineFragment(Some("User"), None, [])) by {
      assert RunBlock(SugarOnlyReceiver, Empty, []) == Ok(Empty);
    }
    assert NodeFormatter.Indent(0) == "";
    assert "" + ("... " + "User" + "") == "... User";
    assert Text.Join(["... User"], "\n") == "... User";
  }

  lemma CorrectedUserFragment()
    ensures Construct(OperationReceiver, InlineFragmentCall(Some("User"), true, [])) == Ok(InlineFragment(None, Some("User"), []))
    ensures ToGql(InlineFragment(None, Some("User"), []), 0) == Ok("... on User")
  {
    assert RunBlock(SugarOnlyReceiver, Empty, []) == Ok(Empty);
    assert NodeFormatter.Indent(0) == "";
    assert "" + ("... " + "" + ("on " + "User")) == "... on User";
    assert Text.Join(["... on User"], "\n") == "... on User";
  }

  /** With the arguments in their intended slots, an inline fragment keeps its type and needs its block. */
  lemma InlineFragmentKeepsType(receiver: LegacyReceiver, typeCondition: string, hasBlock: bool, block: seq<LegacyCall>)
    requires Responds(receiver, InlineFragmentCall(Some(typeCondition), hasBlock, block))
    ensures !hasBlock ==>
      Construct(receiver, InlineFragmentCall(Some(typeCondition), hasBlock, block)) ==
      Err(DslError("Sub-fields must be specified for inline fragment"))
    ensures hasBlock && block == [] ==>
      Construct(receiver, InlineFragmentCall(Some(typeCondition), hasBlock, block)) ==
      Ok(InlineFragment(None, Some(typeCondition), []))
  {
    if hasBlock && block == [] {
      assert RunBlock(SugarOnlyReceiver, Empty, []) == Ok(Empty);
    }
  }

  // Printing, compared with the current formatter.

  /** The legacy nodes that have a counterpart the current formatter prints. */
  predicate Translatable(n: LegacyNode)
  {
    match n
    case Field(_, _, _, nodes) => forall i | 0 <= i < |nodes| :: Translatable(nodes[i])
    case FragmentOperation(_, _, nodes) => forall i | 0 <= i < |nodes| :: Translatable(nodes[i])
    case Fragment(_, _, nodes) => forall i | 0 <= i < |nodes| :: Translatable(nodes[i])
    case InlineFragment(name, typeCondition, nodes) =>
      name.None? && typeCondition.Some? && forall i | 0 <= i < |nodes| :: Translatable(nodes[i])
    case Query(_, nodes) => forall i | 0 <= i < |nodes| :: Translatable(nodes[i])
    case QueryOperation(_, nodes) => forall i | 0 <= i < |nodes| :: Translatable(nodes[i])
    case _ => false
  }

  /** The current generation's node for a legacy one: no directives, no variables, queries as query operations. */
  function Translate(n: LegacyNode): Nodes.Node
    requires Translatable(n)
    decreases n, 1
  {
    match n
    case Field(name, alias, arguments, nodes) => Nodes.Field(name, alias, arguments, [], TranslateAll(nodes))
    case FragmentOperation(name, typeCondition, nodes) => Nodes.FragmentOperation(name, typeCondition, [], TranslateAll(nodes))
    case Fragment(name, typeCondition, nodes) => Nodes.FragmentOperation(name, typeCondition, [], TranslateAll(nodes))
    case InlineFragment(_, typeCondition, nodes) => Nodes.InlineFragment(typeCondition, [], TranslateAll(nodes))
    case Query(name, nodes) => Nodes.Operation(Nodes.Query, name, [], [], TranslateAll(nodes))
    case QueryOperation(name, nodes) => Nodes.Operation(Nodes.Query, name, [], [], TranslateAll(nodes))
  }

  function TranslateAll(nodes: seq<LegacyNode>): (r: seq<Nodes.Node>)
    requires forall i | 0 <= i < |nodes| :: Translatable(nodes[i])
    ensures |r| == |nodes| && forall i | 0 <= i < |nodes| :: r[i] == Translate(nodes[i])
    decreases nodes, 0
  {
    if nodes == [] then []
    else
      assert forall i | 1 <= i < |nodes| :: nodes[i] == nodes[1..][i - 1];
      [Translate(nodes[0])] + TranslateAll(nodes[1..])
  }

  /** A field's head line: the legacy concatenation and the current signature agree, errors included. */
  lemma FieldHeadAgrees(name: string, alias: Option<string>, arguments: seq<Entry>, nodes: seq<Nodes.Node>)
    ensures ArgumentMixin.ArgumentsToS(arguments).Err? ==>
      NodeFormatter.FieldSignature(Nodes.Field(name, alias, arguments, [], nodes)) == Err(ArgumentMixin.ArgumentsToS(arguments).error)
    ensures ArgumentMixin.ArgumentsToS(arguments).Ok? ==>
      NodeFormatter.FieldSignature(Nodes.Field(name, alias, arguments, [], nodes)) ==
      Ok((if alias.Some? then alias.value + ": " + name else name) + ArgumentMixin.ArgumentsToS(arguments).value)
  {
    ArgumentMixin.AgreesWithFormatter(arguments);
    ArgumentFormatter.AbsentIffEmpty(arguments, false);
    var prefix := if alias.Some? then alias.value + ": " else "";
    assert (if alias.Some? then alias.value + ": " + name else name) == prefix + name;
    var field := Nodes.Field(name, alias, arguments, [], nodes);
    var formatted := if arguments == [] then Ok(None) else ArgumentFormatter.FormatArguments(arguments, false);
    if formatted.Ok? {
      var text := if formatted.value.Some? then formatted.value.value else "";
      assert ArgumentMixin.ArgumentsToS(arguments) == Ok(text);
      assert NodeFormatter.FieldSignature(field) == Ok(prefix + name + text + "");
      assert prefix + name + text + "" == (prefix + name) + text;
    }
  }

  /** The head line of a fragment definition: `fragment Name on Type` in both generations. */
  lemma FragmentHeadAgrees(name: string, typeCondition: string, nodes: seq<Nodes.Node>)
    ensures NodeFormatter.FragmentOperationSignature(Nodes.FragmentOperation(name, typeCondition, [], nodes)) ==
      Ok("fragment " + name + " on " + typeCondition)
  {
    var none: Option<string> := None;
    var fragment := Nodes.FragmentOperation(name, typeCondition, [], nodes);
    assert ContainerDirectiveFormatter.FormatDirectives(fragment.directives, false) == Ok(none);
    Text.JoinPresent("fragment " + name, Some("on " + typeCondition), none);
    assert NodeFormatter.FragmentOperationSignature(fragment) ==
      Ok(Text.Join(Text.Compact([Some("fragment " + name), Some("on " + typeCondition), none]), " "));
    assert ("fragment " + name) + (" " + ("on " + typeCondition)) + "" == "fragment " + name + " on " + typeCondition;
  }

  /** The head line of a typed inline fragment: `... on Type` in both generations. */
  lemma InlineFragmentHeadAgrees(typeCondition: string, nodes: seq<Nodes.Node>)
    ensures NodeFormatter.InlineFragmentSignature(Nodes.InlineFragment(Some(typeCondition), [], nodes)) ==
      Ok("... " + "" + ("on " + typeCondition))
  {
    var none: Option<string> := None;
    Text.JoinPresent("...", Some("on " + typeCondition), none);
    assert "..." + (" " + ("on " + typeCondition)) + "" == "... " + "" + ("on " + typeCondition);
  }

  /** A query's signature: nothing when anonymous, `query Name` when named, as the legacy query prints it. */
  lemma QueryHeadAgrees(name: Option<string>, nodes: seq<Nodes.Node>)
    ensures NodeFormatter.OperationSignature(Nodes.Operation(Nodes.Query, name, [], [], nodes)) ==
      Ok(if name.Some? then Some("query " + name.value) else None)
  {
    var none: Option<string> := None;
    var op := Nodes.Operation(Nodes.Query, name, [], [], nodes);
    assert NodeFormatter.DefinitionValues([]) == [];
    assert Text.Compact([name, none]) == if name.Some? then [name.value] else [] by {
      Text.CompactSnoc([name], none);
      assert [name, none] == [name] + [none];
      assert Text.Compact([name]) == (if name.Some? then [name.value] else []) + Text.Compact([]);
    }
    if name.Some? {
      assert Text.Join([name.value], "") == name.value;
      Text.JoinPresent("query", Some(name.value), none);
      assert "query" + (" " + name.value) + "" == "query " + name.value;
    } else {
      assert Text.Compact([none, none, none]) == [] by {
        assert [none, none, none][1..] == [none, none];
        assert [none, none][1..] == [none];
        assert [none][1..] == [];
      }
    }
  }

  /**
   * Every legacy node with a current counterpart prints exactly as the current formatter prints
   * that counterpart, at every level; the legacy fragment and query classes print as their
   * fragment-operation and query-operation twins.
   */
  lemma {:induction false} ToGqlAgrees(n: LegacyNode, level: nat)
    requires Translatable(n)
    ensures ToGql(n, level) == NodeFormatter.FormatNode(Translate(n), level)
    decreases n, 1
  {
    match n
    case Field(name, alias, arguments, nodes) => FieldAgrees(name, alias, arguments, nodes, level);
    case FragmentOperation(name, typeCondition, nodes) => FragmentOperationAgrees(name, typeCondition, nodes, level);
    case Fragment(name, typeCondition, nodes) => FragmentAgrees(name, typeCondition, nodes, level);
    case InlineFragment(_, typeCondition, nodes) => InlineFragmentAgrees(typeCondition.value, nodes, level);
    case Query(name, nodes) => QueryAgrees(name, nodes, level);
    case QueryOperation(name, nodes) => QueryOperationAgrees(name, nodes, level);
  }

  lemma {:induction false} FieldAgrees(name: string, alias: Option<string>, arguments: seq<Entry>, nodes: seq<LegacyNode>, level: nat)
    requires Translatable(Field(name, alias, arguments, nodes))
    ensures ToGql(Field(name, alias, arguments, nodes), level) ==
      NodeFormatter.FormatNode(Translate(Field(name, alias, arguments, nodes)), level)
    decreases Field(name, alias, arguments, nodes), 0
  {
    var t := Translate(Field(name, alias, arguments, nodes));
    FieldHeadAgrees(name, alias, arguments, t.nodes);
    ChildrenAgree(nodes, level + 1);
    var fieldArguments := ArgumentMixin.ArgumentsToS(arguments);
    if fieldArguments.Ok? {
      var fieldName := if alias.Some? then alias.value + ": " + name else name;
      assert NodeFormatter.Indent(level) + fieldName + fieldArguments.value ==
        NodeFormatter.Indent(level) + NodeFormatter.FieldSignature(t).value;
    }
  }

  lemma {:induction false} FragmentOperationAgrees(name: string, typeCondition: string, nodes: seq<LegacyNode>, level: nat)
    requires Translatable(FragmentOperation(name, typeCondition, nodes))
    ensures ToGql(FragmentOperation(name, typeCondition, nodes), level) ==
      NodeFormatter.FormatNode(Translate(FragmentOperation(name, typeCondition, nodes)), level)
    decreases FragmentOperation(name, typeCondition, nodes), 0
  {
    FragmentLayoutAgrees(name, typeCondition, nodes, level);
  }

  lemma {:induction false} FragmentAgrees(name: string, typeCondition: string, nodes: seq<LegacyNode>, level: nat)
    requires Translatable(Fragment(name, typeCondition, nodes))
    ensures ToGql(Fragment(name, typeCondition, nodes), level) ==
      NodeFormatter.FormatNode(Translate(Fragment(name, typeCondition, nodes)), level)
    decreases Fragment(name, typeCondition, nodes), 0
  {
    FragmentLayoutAgrees(name, typeCondition, nodes, level);
  }

  /** What both legacy fragment classes print equals what the formatter prints for the fragment definition. */
  lemma {:induction false} FragmentLayoutAgrees(name: string, typeCondition: string, nodes: seq<LegacyNode>, level: nat)
    requires forall i | 0 <= i < |nodes| :: Translatable(nodes[i])
    ensures var children := ChildrenToGql(nodes, level + 1);
      var head := NodeFormatter.Indent(level) + ("fragment " + name + " on " + typeCondition);
      NodeFormatter.FormatNode(Nodes.FragmentOperation(name, typeCondition, [], TranslateAll(nodes)), level) ==
        if children.Ok? then Ok(Text.Join([head] + Braced(level, children.value), "\n")) else Err(children.error)
    decreases nodes, 1
  {
    var t := Nodes.FragmentOperation(name, typeCondition, [], TranslateAll(nodes));
    FragmentHeadAgrees(name, typeCondition, t.nodes);
    ChildrenAgree(nodes, level + 1);
    assert NodeFormatter.FormatNode(t, level) == NodeFormatter.FormatFragmentOperation(t, level);
  }

  lemma {:induction false} InlineFragmentAgrees(typeCondition: string, nodes: seq<LegacyNode>, level: nat)
    requires Translatable(InlineFragment(None, Some(typeCondition), nodes))
    ensures ToGql(InlineFragment(None, Some(typeCondition), nodes), level) ==
      NodeFormatter.FormatNode(Translate(InlineFragment(None, Some(typeCondition), nodes)), level)
    decreases InlineFragment(None, Some(typeCondition), nodes), 0
  {
    InlineFragmentLayoutAgrees(typeCondition, nodes, level);
  }

  /** What a legacy typed inline fragment prints equals what the formatter prints for it. */
  lemma {:induction false} InlineFragmentLayoutAgrees(typeCondition: string, nodes: seq<LegacyNode>, level: nat)
    requires forall i | 0 <= i < |nodes| :: Translatable(nodes[i])
    ensures var children := ChildrenToGql(nodes, level + 1);
      var head := NodeFormatter.Indent(level) + ("... " + "" + ("on " + typeCondition));
      NodeFormatter.FormatNode(Nodes.InlineFragment(Some(typeCondition), [], TranslateAll(nodes)), level) ==
        if nodes == [] then Ok(Text.Join([head], "\n"))
        else if children.Ok? then Ok(Text.Join([head] + Braced(level, children.value), "\n")) else Err(children.error)
    decreases nodes, 1
  {
    var t := Nodes.InlineFragment(Some(typeCondition), [], TranslateAll(nodes));
    InlineFragmentHeadAgrees(typeCondition, t.nodes);
    ChildrenAgree(nodes, level + 1);
    assert NodeFormatter.FormatNode(t, level) == NodeFormatter.FormatInlineFragment(t, level);
    assert t.nodes == [] <==> nodes == [];
  }

  lemma {:induction false} QueryAgrees(name: Option<string>, nodes: seq<LegacyNode>, level: nat)
    requires Translatable(Query(name, nodes))
    ensures ToGql(Query(name, nodes), level) == NodeFormatter.FormatNode(Translate(Query(name, nodes)), level)
    decreases Query(name, nodes), 0
  {
    QueryLayoutAgrees(name, nodes, level);
  }

  lemma {:induction false} QueryOperationAgrees(name: Option<string>, nodes: seq<LegacyNode>, level: nat)
    requires Translatable(QueryOperation(name, nodes))
    ensures ToGql(QueryOperation(name, nodes), level) ==
      NodeFormatter.FormatNode(Translate(QueryOperation(name, nodes)), level)
    decreases QueryOperation(name, nodes), 0
  {
    QueryLayoutAgrees(name, nodes, level);
  }

  /** What both legacy query classes print equals what the formatter prints for the query operation. */
  lemma {:induction false} QueryLayoutAgrees(name: Option<string>, nodes: seq<LegacyNode>, level: nat)
    requires forall i | 0 <= i < |nodes| :: Translatable(nodes[i])
    ensures var children := ChildrenToGql(nodes, level + 1);
      var head := if name.Some? then [NodeFormatter.Indent(level) + ("query " + name.value)] else [];
      NodeFormatter.FormatNode(Nodes.Operation(Nodes.Query, name, [], [], TranslateAll(nodes)), level) ==
        if children.Ok? then Ok(Text.Join(head + Braced(level, children.value), "\n")) else Err(children.error)
    decreases nodes, 1
  {
    var t := Nodes.Operation(Nodes.Query, name, [], [], TranslateAll(nodes));
    QueryHeadAgrees(name, t.nodes);
    ChildrenAgree(nodes, level + 1);
  }

  lemma {:induction false} ChildrenAgree(nodes: seq<LegacyNode>, level: nat)
    requires forall i | 0 <= i < |nodes| :: Translatable(nodes[i])
    ensures ChildrenToGql(nodes, level) == NodeFormatter.FormatChildren(TranslateAll(nodes), level)
    decreases nodes, 0
  {
    if nodes != [] {
      ToGqlAgrees(nodes[0], level);
      assert forall i | 1 <= i < |nodes| :: nodes[i] == nodes[1..][i - 1];
      ChildrenAgree(nodes[1..], level);
      assert TranslateAll(nodes)[1..] == TranslateAll(nodes[1..]);
    }
  }
}

# GraphQL DSL — a Dafny model

graphql-dsl is a Ruby library for writing GraphQL executable documents as Ruby
code. A block of DSL calls builds a tree of nodes: an executable document,
operations (`query`, `mutation`, `subscription`), fragment definitions,
fields, fragment spreads and inline fragments. A formatter then prints the
tree as GraphQL text. The repository holds two generations of the code:

- the current one, under `lib/graphql/dsl`;
- an older one, under `lib/graph_ql/dsl`, whose nodes carry their own
  `to_gql` printers and whose mixins print values, arguments, directives and
  variable definitions.

This project models both generations:

- **Values** (`values.dfy`). A caller may pass Ruby objects of many kinds. One
  dynamic `Value` type stands for all of them: Integer, Float, String, true or
  false, nil, Symbol, Array, Hash, a Directive or VariableDefinition
  container, or any other object. Errors are `DslError(message)` for the
  library's own `GraphQL::DSL::Error`, and `RubyError(name)` for an error Ruby
  itself raises (`NoMethodError`, `NotImplementedError`).
- **Literal printing** (`value_format.dfy`, `value_mixin.dfy`). This is the
  constant-aware `format_value` and the older `__value_to_s`. The model
  includes:
  - Ruby's `Integer#to_s` (`decimal.dfy`);
  - Ruby's `String#dump` (`string_dump.dfy`), with its inverse `Undump`.
- **Arguments, directives and variable definitions**. Their printers come in
  two shapes:
  - a Hash/Array printer (`arguments.dfy`, `directives.dfy`, the first two
    modules of `variable_definitions.dfy`);
  - a container printer (`ContainerDirectiveFormatter`, `VariableFormatter`).

  The `Directive` and `VariableDefinition` containers, with their `from`
  normalisers, are in `containers.dfy`.
- **Node trees and their builders**:
  - The current generation is in `nodes.dfy` and `builder.dfy`.
  - The older generation is in `legacy_nodes.dfy` and `legacy_builder.dfy`.
  - A DSL block is an explicit sequence of `Call`s.
  - Pure functions (`Construct`, `Apply`, `RunBlock`, `BuildDocument`)
    specify what a block does.
  - Builder classes with `nodes` and `variableDefinitions` fields run the
    block by updating those fields, as the Ruby node objects do. Each builder
    method is proved against the specification functions.
- **Printing node trees**:
  - `formatter.dfy` prints current-generation trees: indentation by two spaces
    per level, the signature line of each node, and a `{ … }` block of
    children.
  - `legacy_properties.dfy` proves that the older `to_gql` printers agree with
    this formatter on the trees both can express.

## Model

| member | source | states |
|---|---|---|
| Values.Lookup | lib/graph_ql/dsl/nodes/containers/directive.rb:55-60 | a Hash lookup finds a value exactly when the key is present, and the value is one stored under that key |
| Values.RequiredText | lib/graphql/dsl/nodes/containers/variable_definition.rb:31-39 | the `nil?`-or-`empty?` guard: nil or an empty value raises the given message; among the documented Symbol and String names a non-empty one is accepted with its text (other non-empty objects: see Left out) |
| Decimal.NatToString | lib/graphql/dsl/formatter/values.rb:48-50 | printing a natural number gives a non-empty run of digits with no leading zero |
| Decimal.IntToString | lib/graphql/dsl/formatter/values.rb:48-50 | a printed Integer is non-empty and starts with `-` exactly when it is negative |
| Decimal.NatRoundTrip | lib/graphql/dsl/formatter/values.rb:48-50 | reading back a printed natural number gives the number |
| Decimal.IntRoundTrip | lib/graphql/dsl/formatter/values.rb:48-50 | a printed Integer is well formed and reading it back gives the Integer |
| StringDump.Hex | lib/graphql/dsl/formatter/values.rb:68-70 | a fixed-width hex escape has exactly that width and only hex digits |
| StringDump.HexRoundTrip | lib/graphql/dsl/formatter/values.rb:68-70 | reading a fixed-width hex escape gives back the code point |
| StringDump.HexMinRoundTrip | lib/graphql/dsl/formatter/values.rb:68-70 | reading the shortest hex form of a code point gives it back |
| StringDump.EscapeCharReads | lib/graphql/dsl/formatter/values.rb:68-70 | each character's escape is non-empty and reads back as exactly that character, consuming the whole escape |
| StringDump.UnescapeEscape | lib/graphql/dsl/formatter/values.rb:68-70 | unescaping the escaped body of a string gives back the string |
| StringDump.DumpRoundTrip | lib/graphql/dsl/formatter/values.rb:68-70 | `dump` is invertible: undumping a dumped string gives it back |
| StringDump.DumpIsOneLine | lib/graphql/dsl/formatter/values.rb:68-70 | a dumped string contains no newline, so a GraphQL string literal stays on one line |
| ValueFormatter.FormatElements | lib/graphql/dsl/formatter/values.rb:122-128 | a list's elements are printed one for one, in order, each by `format_value` |
| ValueFormatter.FormatMembers | lib/graphql/dsl/formatter/values.rb:137-143 | an object's members are printed one for one, in order |
| ValueFormatter.FormatSucceedsIff | lib/graphql/dsl/formatter/values.rb:15-40 | a value prints exactly when every nested value has a supported type, and, in a constant context, no nested Symbol is a `$variable` |
| ValueFormatter.ElementsSucceedIff | lib/graphql/dsl/formatter/values.rb:122-128 | a list prints exactly when all elements are supported and, in a constant context, none holds a variable |
| ValueFormatter.MembersSucceedIff | lib/graphql/dsl/formatter/values.rb:137-143 | an object prints exactly when all member values are supported and, in a constant context, none holds a variable |
| ValueFormatter.MemberSucceedsIff | lib/graphql/dsl/formatter/values.rb:137-143 | one `name: value` member prints exactly when its value is supported and allowed in the context |
| ValueFormatter.ConstOnlyRestrictsVariables | lib/graphql/dsl/formatter/values.rb:99-103 | for a value without variables, the constant flag changes nothing |
| ValueFormatter.ElementsConstOnlyRestrictsVariables | lib/graphql/dsl/formatter/values.rb:122-128 | the same for list elements |
| ValueFormatter.MembersConstOnlyRestrictsVariables | lib/graphql/dsl/formatter/values.rb:137-143 | the same for object members |
| ValueFormatter.MemberConstOnlyRestrictsVariables | lib/graphql/dsl/formatter/values.rb:137-143 | the same for one object member |
| ValueFormatter.ConstAcceptsAsGeneral | lib/graphql/dsl/formatter/values.rb:99-103 | whatever prints in a constant context prints identically outside it |
| ValueFormatter.FormatErrors | lib/graphql/dsl/formatter/values.rb:15-40 | the only errors are 'Value must be constant' and 'Unsupported value type'; states which one each failing input raises |
| ValueFormatter.ElementsErrors | lib/graphql/dsl/formatter/values.rb:122-128 | the same error classification for a list |
| ValueFormatter.MembersErrors | lib/graphql/dsl/formatter/values.rb:137-143 | the same error classification for an object |
| ValueFormatter.MemberErrors | lib/graphql/dsl/formatter/values.rb:137-143 | the same error classification for one member, and when it succeeds |
| ValueFormatter.ScalarRendering | lib/graphql/dsl/formatter/values.rb:15-26 | Integers print as decimal text that reads back to the number; booleans print `true`/`false`; nil prints `null` |
| ValueFormatter.StringRendering | lib/graphql/dsl/formatter/values.rb:68-70 | a String always prints, as one line that undumps to the original string |
| ValueFormatter.SymbolRendering | lib/graphql/dsl/formatter/values.rb:27-32 | a Symbol prints as its name (enum or variable), except that a `$variable` in a constant context raises 'Value must be constant' |
| ValueFormatter.CompoundRendering | lib/graphql/dsl/formatter/values.rb:122-143 | empty list `[]`, empty object `{}`; a printed list is `[` + element texts joined by `, ` + `]`; a printed object is `{` + `name: value` texts joined by `, ` + `}` |
| ValueMixin.AgreesWithFormatter | lib/graph_ql/dsl/nodes/mixins/values.rb:18-43 | the older `__value_to_s` prints every value exactly as `format_value` does outside a constant context |
| ValueMixin.ElementsAgree | lib/graph_ql/dsl/nodes/mixins/values.rb:121-127 | the same for list elements |
| ValueMixin.MemberAgrees | lib/graph_ql/dsl/nodes/mixins/values.rb:135-141 | the same for one object member |
| ValueMixin.MembersAgree | lib/graph_ql/dsl/nodes/mixins/values.rb:135-141 | the same for object members |
| ValueMixin.SucceedsIffSupported | lib/graph_ql/dsl/nodes/mixins/values.rb:18-43 | `__value_to_s` succeeds exactly on supported values; otherwise it raises 'Unsupported value type' |
| ValueMixin.SymbolRendering | lib/graph_ql/dsl/nodes/mixins/values.rb:101-113 | every Symbol, `$variable` or enum, prints as its name |
| ArgumentFormatter.AbsentIffEmpty | lib/graph_ql/dsl/formatter/arguments.rb:15-23 | arguments print as nothing exactly when there are none, and never as `()` |
| ArgumentFormatter.AsInputObject | lib/graph_ql/dsl/formatter/arguments.rb:15-23 | non-empty arguments print as the object literal of the same Hash with `{…}` replaced by `(…)`, and fail with the same error |
| ArgumentFormatter.ConstContextRefusesVariables | lib/graph_ql/dsl/formatter/arguments.rb:15-23 | in a constant context, arguments holding a variable raise |
| ArgumentMixin.AgreesWithFormatter | lib/graph_ql/dsl/nodes/mixins/arguments.rb:20-28 | `__arguments_to_s` equals `format_arguments` outside a constant context, with the empty string for no arguments |
| DirectiveFormatter.DirectiveName | lib/graph_ql/dsl/formatter/directives.rb:92-94 | a directive name is printed with exactly one leading `@`: kept when present, added otherwise |
| DirectiveFormatter.ArgumentsOf | lib/graph_ql/dsl/formatter/directives.rb:51-63 | a Hash of arguments gives its pairs, an empty value gives none, and anything else fails (an Array of pairs: see Left out) |
| DirectiveFormatter.FormatEach | lib/graph_ql/dsl/formatter/directives.rb:15-23 | every directive of the list is printed, one text per directive; the texts themselves are stated by `DirectiveFormatter.EachSnoc` |
| DirectiveFormatter.DirectiveNameIdempotent | lib/graph_ql/dsl/formatter/directives.rb:92-94 | prefixing `@` is idempotent, and the prefix is the only change to a name without one |
| DirectiveFormatter.Rendering | lib/graph_ql/dsl/formatter/directives.rb:51-63 | a directive prints as its `@name` directly followed by its argument clause when it has one |
| DirectiveFormatter.ShapesAgree | lib/graph_ql/dsl/formatter/directives.rb:51-84 | `{name:, args:}` and `[name, args]` print the same, with or without arguments |
| DirectiveFormatter.NameIsRequired | lib/graph_ql/dsl/formatter/directives.rb:51-84 | a missing, nil or empty name raises 'Directive name must be specified' in both shapes |
| DirectiveFormatter.ArgumentsOnlyWhenGiven | lib/graph_ql/dsl/formatter/directives.rb:51-63 | missing or empty `args` print the bare `@name`; other arguments print as `@name(…)` |
| DirectiveFormatter.DirectiveStartsWithAt | lib/graph_ql/dsl/formatter/directives.rb:32-42 | a printed directive starts with `@`; only Hash and Array directives print; any other object raises 'Unsupported directive type' |
| DirectiveFormatter.DirectivesAppend | lib/graph_ql/dsl/formatter/directives.rb:15-23 | no directives print as nothing; one more directive appends ` ` and its text |
| DirectiveFormatter.EachSnoc | lib/graph_ql/dsl/formatter/directives.rb:15-23 | printing a list extended by one directive succeeds exactly when both parts do, and appends that directive's text |
| DirectiveFormatter.ConstContextRefusesVariables | lib/graph_ql/dsl/formatter/directives.rb:32-84 | in a constant context, directive arguments holding a variable raise, in both shapes |
| DirectiveMixin.NameAgrees | lib/graph_ql/dsl/nodes/mixins/directives.rb:98-100 | the mixin names directives as the formatter does |
| DirectiveMixin.DirectiveAgrees | lib/graph_ql/dsl/nodes/mixins/directives.rb:38-90 | the mixin prints every directive as the formatter does, errors included |
| DirectiveMixin.ClauseAgrees | lib/graph_ql/dsl/nodes/mixins/directives.rb:57-69 | the mixin's argument clause fails as the formatter's does and gives the same directive text |
| DirectiveMixin.DirectivesAgree | lib/graph_ql/dsl/nodes/mixins/directives.rb:21-29 | the mixin prints directive lists as the formatter does |
| DirectiveMixin.EachAgrees | lib/graph_ql/dsl/nodes/mixins/directives.rb:21-29 | the same, directive by directive |
| ContainerDirectiveFormatter.FormatEach | spec/graphql/dsl/formatter/directives_spec.rb:6-22 | every Directive container of a list is printed, one text each; the texts themselves are stated by `ContainerDirectiveFormatter.EachInOrder` |
| ContainerDirectiveFormatter.EachInOrder | spec/graphql/dsl/formatter/directives_spec.rb:6-22 | the list prints exactly when each container prints; its i-th text is the i-th container's text; a failure is the failure of one of the containers |
| ContainerDirectiveFormatter.AgreesWithArrayShape | spec/graphql/dsl/formatter/directives_spec.rb:6-22 | a Directive container prints as the `[name, arguments]` array form of the same directive |
| DirectiveContainer.NewAsWritten | lib/graph_ql/dsl/nodes/containers/directive.rb:21-26 | as written: a nil or empty name raises 'Variable name must be specified'; a non-empty Symbol or String name is accepted (other non-empty objects: see Left out) |
| DirectiveContainer.New | lib/graph_ql/dsl/nodes/containers/directive.rb:21-26 | corrected: a non-empty Symbol or String name gives a Directive with that name and the arguments; nil or empty raises 'Directive name must be specified' |
| DirectiveContainer.WrongMessageWitness | lib/graph_ql/dsl/nodes/containers/directive.rb:21-26 | a nil name makes the constructor complain about a variable name; the corrected one names the directive |
| DirectiveContainer.NewDiffersOnlyInMessage | lib/graph_ql/dsl/nodes/containers/directive.rb:21-26 | the written and the corrected constructor accept the same inputs, build the same Directive, and differ only in the message |
| DirectiveContainer.FromIdempotent | lib/graph_ql/dsl/nodes/containers/directive.rb:35-43 | `from` of a Directive is that Directive; other objects than a Directive, Hash or Array raise 'Unsupported format of directive' |
| DirectiveContainer.HashShapeRoundTrip | lib/graph_ql/dsl/nodes/containers/directive.rb:55-60 | a Directive written as `{name:, args:}` is read back unchanged |
| DirectiveContainer.LegacyShapesAgree | lib/graph_ql/dsl/nodes/containers/directive.rb:55-75 | the Hash and Array shapes read the same Directive; a name alone means empty arguments |
| DirectiveContainer.FromNamesOnly | lib/graphql/dsl/nodes/containers/directive.rb:35-42 | the current `from` turns a name into an argument-less Directive and refuses Hash and Array |
| DirectiveContainer.LegacyFrom | lib/graph_ql/dsl/nodes/containers/directive.rb:35-75 | the older `Directive.from`; stated by `DirectiveContainer.FromIdempotent`, `DirectiveContainer.HashShapeRoundTrip` and `DirectiveContainer.LegacyShapesAgree` |
| DirectiveContainer.From | lib/graphql/dsl/nodes/containers/directive.rb:35-41 | the current `Directive.from`; stated by `DirectiveContainer.FromIdempotent` and `DirectiveContainer.FromNamesOnly` |
| VariableDefinitionContainer.DirectivesFrom | lib/graphql/dsl/nodes/containers/variable_definition.rb:31-39 | a definition's directives are normalised one for one, in order, and fail when any one fails |
| VariableDefinitionContainer.New | lib/graphql/dsl/nodes/containers/variable_definition.rb:31-39 | the name is checked first, then the type: a bad name gives 'Variable name must be specified', a good name with a bad type gives 'Variable type must be specified'; the default is kept; an Array of directives becomes exactly `DirectivesFrom` of it, and fails when and as that fails; a Hash slot passes only when empty, giving no directives |
| VariableDefinitionContainer.DirectivesOf | lib/graphql/dsl/nodes/containers/variable_definition.rb:38 | `directives.map { … }` on an Array or a Hash; what it gives is stated by `VariableDefinitionContainer.New` |
| VariableDefinitionContainer.FromIdempotent | lib/graphql/dsl/nodes/containers/variable_definition.rb:48-57 | `from` of a VariableDefinition is that definition; unsupported objects raise 'Unsupported format of variable definition' |
| VariableDefinitionContainer.From | lib/graphql/dsl/nodes/containers/variable_definition.rb:48-106 | `VariableDefinition.from(name, value)`; stated by `VariableDefinitionContainer.FromIdempotent`, `VariableDefinitionContainer.FromType`, `VariableDefinitionContainer.ShapesAgree` and `VariableDefinitionContainer.NameThenType` |
| VariableDefinitionContainer.FromType | lib/graphql/dsl/nodes/containers/variable_definition.rb:68-70 | a bare type Symbol or String gives a definition with no default and no directives |
| VariableDefinitionContainer.ShapesAgree | lib/graphql/dsl/nodes/containers/variable_definition.rb:82-106 | the Hash and Array shapes agree slot for slot; a given `nil` default is kept, a missing one is undefined |
| VariableDefinitionContainer.TypeOnlyAgrees | lib/graphql/dsl/nodes/containers/variable_definition.rb:82-106 | the Hash and Array shapes agree on a type alone |
| VariableDefinitionContainer.TypeAndDefaultAgree | lib/graphql/dsl/nodes/containers/variable_definition.rb:82-106 | the Hash and Array shapes agree on a type and a default |
| VariableDefinitionContainer.AllSlotsAgree | lib/graphql/dsl/nodes/containers/variable_definition.rb:82-106 | the Hash and Array shapes agree on type, default and directives |
| VariableDefinitionContainer.NameThenType | lib/graphql/dsl/nodes/containers/variable_definition.rb:31-39 | a missing name is reported before a missing type; an empty type raises 'Variable type must be specified' |
| ContainerRendering.DirectiveNormaliseThenRender | lib/graph_ql/dsl/nodes/containers/directive.rb:70-75 | normalising an array directive into a container and then printing it gives the array printer's text |
| ContainerRendering.VariableNormaliseThenRender | lib/graphql/dsl/formatter/variable_definitions.rb:30-39 | for an Array definition of at most two slots (type, default), normalising and printing the container gives the Hash/Array printer's text, and both refuse the same inputs; the directives slot is where the generations differ (next two rows) |
| ContainerRendering.DirectivesSlotNeverShared | lib/graphql/dsl/nodes/containers/directive.rb:35-41 | with a non-empty directives slot, no definition is both accepted by the current container and printed by the Hash/Array printer: the one takes only containers, Symbols and Strings, the other only Hashes and Arrays |
| ContainerRendering.DirectivesSlotWitness | lib/graph_ql/dsl/formatter/variable_definitions.rb:97-109 | `{x: [:Int, nil, [[:d]]]}` prints `$x: Int = null @d` through the Hash/Array printer, while the current container refuses it with 'Unsupported format of directive' |
| ShapeVariableFormatter.FromText | lib/graph_ql/dsl/formatter/variable_definitions.rb:53-69 | a type given as text is printed as is, and must not be empty |
| ShapeVariableFormatter.FormatPairs | lib/graph_ql/dsl/formatter/variable_definitions.rb:14-22 | every `name => definition` pair is printed, one text each; the texts themselves are stated by `ShapeVariableFormatter.PairsInOrder` |
| ShapeVariableFormatter.PairsInOrder | lib/graph_ql/dsl/formatter/variable_definitions.rb:14-22 | the pairs print exactly when each pair prints; the i-th text is the i-th pair's text; a failure is the failure of one of the pairs |
| ShapeVariableFormatter.TypeIsRequired | lib/graph_ql/dsl/formatter/variable_definitions.rb:30-109 | a missing, nil or empty type raises 'Variable type must be specified' in every shape; other objects raise 'Unsupported variable definition type' |
| ShapeVariableFormatter.ShapesAgree | lib/graph_ql/dsl/formatter/variable_definitions.rb:53-109 | Symbol, Hash and Array shapes print a definition identically |
| ShapeVariableFormatter.DefaultRendering | lib/graph_ql/dsl/formatter/variable_definitions.rb:97-109 | a default prints as ` = ` and its constant literal; `nil` prints `= null`; a variable default raises |
| ShapeVariableFormatter.DirectivesRendering | lib/graph_ql/dsl/formatter/variable_definitions.rb:97-109 | directives of a definition follow its default after a space, printed as constants |
| ShapeVariableFormatter.AbsentIffEmpty | lib/graph_ql/dsl/formatter/variable_definitions.rb:14-22 | no definitions print as nothing; otherwise the clause prints exactly when every pair does, and is `(` + each pair's `$name: definition` in order, joined by `, `, + `)` |
| VariableMixin.DirectivesPartAgrees | lib/graph_ql/dsl/nodes/mixins/variable_definitions.rb:104-116 | the mixin prints a definition's directives as the formatter does |
| VariableMixin.DefinitionAgrees | lib/graph_ql/dsl/nodes/mixins/variable_definitions.rb:37-116 | the mixin prints every definition shape as the formatter does, errors included |
| VariableMixin.DefinitionsAgree | lib/graph_ql/dsl/nodes/mixins/variable_definitions.rb:21-29 | the mixin prints a definition map as the formatter does |
| VariableMixin.PairsAgree | lib/graph_ql/dsl/nodes/mixins/variable_definitions.rb:21-29 | the same, pair by pair |
| VariableFormatter.FormatEach | lib/graphql/dsl/formatter/variable_definitions.rb:14-22 | every VariableDefinition container is printed, one text each; the texts themselves are stated by `VariableFormatter.EachInOrder` |
| VariableFormatter.EachInOrder | lib/graphql/dsl/formatter/variable_definitions.rb:17-19 | the containers print exactly when each container prints; the i-th text is the i-th container's text; a failure is the failure of one of the containers |
| VariableFormatter.Rendering | lib/graphql/dsl/formatter/variable_definitions.rb:30-39 | a container prints as `$name: Type`, then ` = default` when given, then its directives after a space |
| VariableFormatter.DefaultIsConstant | lib/graphql/dsl/formatter/variable_definitions.rb:30-39 | a default that holds a variable cannot be printed |
| VariableFormatter.AbsentIffEmptyInOrder | lib/graphql/dsl/formatter/variable_definitions.rb:14-22 | no containers print as nothing; a list extended by one prints the extension's text after the others, in order; the whole clause is stated by `VariableFormatter.ClauseText` |
| VariableFormatter.ClauseText | lib/graphql/dsl/formatter/variable_definitions.rb:14-22 | no containers print as nothing (`nil`); otherwise the clause prints exactly when every container does, fails with one container's error, and is `(` + each container's text in order, joined by `, `, + `)` |
| Text.JoinPresent | lib/graph_ql/dsl/formatter/inline_fragment.rb:34-40 | joining the present parts with spaces (`compact.join(' ')`) gives the first part followed by each present part after a space |
| Nodes.Find | lib/graphql/dsl/nodes/operation.rb:56-58 | finding a variable in the definition map gives a stored definition, and nothing exactly when the name is absent |
| Nodes.NormaliseDefinitions | lib/graphql/dsl/nodes/operation.rb:33-45 | normalised variable definitions keep every name, in the order given |
| Nodes.Put | lib/graphql/dsl/nodes/operation.rb:56-58 | `variable_definitions[name] = …`; what it does to the map is stated by `NodeProperties.PutSemantics` and `NodeProperties.PutNamed` |
| Nodes.Construct | lib/graphql/dsl/nodes/mixins/selection_set.rb:36-68 | the constructor a DSL call runs (validation, directive and definition normalisation, then the block); stated by `NodeProperties.ConstructWellFormed` and, through the builders, `Builder.NewField` and its siblings |
| Nodes.Apply | lib/graphql/dsl/nodes/operation.rb:56-58 | one DSL call on a receiver: `__var` writes the map, a builder method appends its node; stated by `NodeProperties.ApplyWellFormed`, `NodeProperties.RunBlockOnlyAppends` and `Builder.NodeBuilder.Perform` |
| Nodes.RunBlock | lib/graphql/dsl/nodes/node.rb:20-25 | the block evaluated call by call; stated by `NodeProperties.RunBlockConcat`, `NodeProperties.RunBlockAppendsChildren`, `NodeProperties.RunBlockWellFormed` and `Builder.NodeBuilder.Run` |
| Nodes.BuildDocument | lib/graphql/dsl/nodes/executable_document.rb:12-14 | `ExecutableDocument.new(&block)`; stated by `NodeProperties.DocumentWellFormed` and `Builder.NewDocument` |
| NodeProperties.PutNamed | lib/graphql/dsl/nodes/operation.rb:56-58 | declaring a variable with a non-empty name keeps every name in the map non-empty |
| NodeProperties.PutSemantics | lib/graphql/dsl/nodes/operation.rb:56-58 | `__var` stores the definition under its name, leaves other names alone, and adds a new name at the end of the map |
| NodeProperties.ConstructWellFormed | lib/graphql/dsl/nodes/mixins/selection_set.rb:36-68 | each DSL call builds the node kind it names, and that node is well formed |
| NodeProperties.ApplyWellFormed | lib/graphql/dsl/nodes/mixins/selection_set.rb:36-68 | one call keeps a node's children of the kinds its receiver admits |
| NodeProperties.RunBlockWellFormed | lib/graphql/dsl/nodes/node.rb:20-25 | running a block keeps the receiver's children well formed |
| NodeProperties.DocumentWellFormed | lib/graphql/dsl/nodes/executable_document.rb:12-66 | a built document holds only well-formed operations and fragment definitions |
| NodeProperties.RunBlockConcat | lib/graphql/dsl/nodes/node.rb:20-25 | running two blocks one after the other is running their concatenation, and an error stops the rest |
| NodeProperties.RunBlockOnlyAppends | lib/graphql/dsl/nodes/node.rb:20-25 | a block only appends children, at most one per call, and only an operation gains variable definitions |
| NodeProperties.RunBlockAppendsChildren | lib/graphql/dsl/nodes/mixins/selection_set.rb:36-68 | a block of selection calls appends exactly the nodes those calls build, in order, or fails with the first error |
| Builder.NodeBuilder.constructor | lib/graphql/dsl/nodes/node.rb:20-25 | a new node starts with no children and the given variable definitions |
| Builder.NodeBuilder.Append | lib/graphql/dsl/nodes/mixins/selection_set.rb:36-38 | a built child is appended to the node's children; a failed one leaves them unchanged |
| Builder.NodeBuilder.Field | lib/graphql/dsl/nodes/mixins/selection_set.rb:36-38 | `__field` changes the node as the call's specification says; an error leaves it unchanged |
| Builder.NodeBuilder.Fragment | lib/graphql/dsl/nodes/mixins/selection_set.rb:54-56 | `__fragment` appends a fragment spread as specified; an error leaves the node unchanged |
| Builder.NodeBuilder.InlineFragment | lib/graphql/dsl/nodes/mixins/selection_set.rb:66-68 | `__inline_fragment` appends an inline fragment as specified; an error leaves the node unchanged |
| Builder.NodeBuilder.Var | lib/graphql/dsl/nodes/operation.rb:56-58 | `__var` records the variable definition as specified; an error leaves the operation unchanged |
| Builder.NodeBuilder.Operation | lib/graphql/dsl/nodes/executable_document.rb:25-53 | `query`, `mutation` and `subscription` append an operation as specified |
| Builder.NodeBuilder.FragmentDefinition | lib/graphql/dsl/nodes/executable_document.rb:64-66 | `fragment` appends a fragment definition as specified |
| Builder.NodeBuilder.Perform | lib/graphql/dsl/nodes/mixins/selection_set.rb:36-68 | one DSL call changes the node exactly as `Apply` specifies |
| Builder.NodeBuilder.Run | lib/graphql/dsl/nodes/node.rb:20-25 | evaluating a block changes the node exactly as `RunBlock` specifies |
| Builder.NewField | lib/graphql/dsl/nodes/field.rb:30-36 | a Field is built with its block run on it, as `Construct` specifies |
| Builder.NewFragmentSpread | lib/graphql/dsl/nodes/fragment_spread.rb:17-21 | a FragmentSpread is built with its normalised directives |
| Builder.NewInlineFragment | lib/graphql/dsl/nodes/inline_fragment.rb:24-31 | an InlineFragment needs a block and is built with it run on it |
| Builder.NewOperation | lib/graphql/dsl/nodes/operation.rb:33-45 | an Operation refuses an empty variable name and is built with its definitions normalised and its block run |
| Builder.NewFragmentOperation | lib/graphql/dsl/nodes/fragment_operation.rb:25-33 | a fragment definition needs a name and a type and is built with its block run |
| Builder.NewDocument | lib/graphql/dsl/nodes/executable_document.rb:12-14 | a document is built by running its block, as `BuildDocument` specifies |
| NodeFormatter.Indent | lib/graph_ql/dsl/formatter.rb:36-38 | the indent of level n is exactly 2n spaces |
| NodeFormatter.FormatNode | lib/graph_ql/dsl/formatter.rb:15-26 | a node of no known kind raises 'Unknown node' |
| NodeFormatter.FormatChildren | lib/graph_ql/dsl/formatter/operation.rb:15-26 | children print exactly when each one prints, one text each, in order |
| NodeFormatter.OperationKeyword | lib/graph_ql/dsl/formatter/operation.rb:51-57 | corrected: the keyword is left out exactly for the shorthand query (no name, variables or directives); otherwise it is the operation type |
| NodeFormatter.DefinitionValues | lib/graphql/dsl/formatter/variable_definitions.rb:14-22 | the definitions printed are the map's values, in order |
| NodeFormatterProperties.EmptyDocument | lib/graphql/dsl/formatter/executable_document.rb:15-19 | an empty document prints as the empty string |
| NodeFormatterProperties.DocumentAppend | lib/graphql/dsl/formatter/executable_document.rb:15-19 | a document prints its definitions in order, separated by a blank line, and fails when any one fails |
| NodeFormatterProperties.OperationSignatureShape | lib/graph_ql/dsl/formatter/operation.rb:32-57 | an operation has no signature line exactly when it is the shorthand query; otherwise the line starts with its type |
| NodeFormatterProperties.OperationSignatureText | lib/graph_ql/dsl/formatter/operation.rb:32-45 | outside the shorthand the signature is the keyword; then, after one space, the name and the variable clause run together with nothing between them, when either is present; then, after one space, the directives printed outside a constant context, when there are some; the variable clause and the directives are absent exactly when there are none |
| NodeFormatterProperties.OperationLayout | lib/graph_ql/dsl/formatter/operation.rb:15-26 | an operation prints its indented signature line (unless shorthand), then `{`, its children one per line, and `}` at its own indent |
| NodeFormatterProperties.FragmentOperationSignatureText | lib/graph_ql/dsl/formatter/fragment_operation.rb:32-38 | a fragment definition's signature is `fragment Name on Type` followed by its directives |
| NodeFormatterProperties.FragmentOperationLayout | lib/graph_ql/dsl/formatter/fragment_operation.rb:15-24 | a fragment definition prints its signature line and then its `{ … }` block |
| NodeFormatterProperties.FieldSignatureShape | lib/graphql/dsl/formatter/field.rb:34-46 | a field's signature is, in this order, `alias: ` exactly when aliased, its name, an argument text starting with `(` exactly when it has arguments, and a directive text starting with ` @` exactly when it has directives |
| NodeFormatterProperties.FieldSignatureParts | lib/graphql/dsl/formatter/field.rb:34-46 | the same three parts, with their contents: the argument text is `format_arguments(arguments, false)` and the directive text is a space then `format_directives(directives, false)`, each present exactly when the field has some |
| NodeFormatterProperties.DirectivesStartWithAt | lib/graph_ql/dsl/formatter/directives.rb:92-94 | a non-empty directive list prints as text starting with `@` |
| NodeFormatterProperties.FieldLayout | lib/graphql/dsl/formatter/field.rb:15-26 | a field without children is one indented line; with children it adds a `{ … }` block |
| NodeFormatterProperties.FragmentSpreadLayout | lib/graph_ql/dsl/formatter/fragment_spread.rb:15-22 | a fragment spread prints as `...Name` and its directives after a space |
| NodeFormatterProperties.InlineFragmentSignatureText | lib/graph_ql/dsl/formatter/inline_fragment.rb:34-40 | an inline fragment's signature is `...`, then ` on Type` when typed, then its directives |
| NodeFormatterProperties.InlineFragmentLayout | lib/graph_ql/dsl/formatter/inline_fragment.rb:15-26 | an inline fragment prints its signature line, and its `{ … }` block only when it has children |
| NodeFormatterProperties.AnonymousQueryDirectiveWitness | lib/graph_ql/dsl/formatter/operation.rb:51-57 | an anonymous query with one directive prints as `@live {…}` as written, and as `query @live {…}` when corrected |
| LegacyNodes.InlineFragmentArguments | lib/graph_ql/dsl/nodes/mixins/selection_sets.rb:65-67 | corrected: `__inline_fragment(type)` passes no fragment name and the type as the type condition |
| LegacyNodes.NewInlineFragment | lib/graph_ql/dsl/nodes/inline_fragment.rb:23-31 | the three guards: name and type together; a name with a block; a type without a block; a built node keeps its name and type |
| LegacyNodes.ToGql | lib/graph_ql/dsl/nodes/node.rb:34-36 | documents, operations and fragment spreads have no printer and raise NotImplementedError |
| LegacyNodes.ChildrenToGql | lib/graph_ql/dsl/nodes/field.rb:58-72 | children print exactly when each one prints, one text each, in order |
| LegacyNodes.Construct | lib/graph_ql/dsl/nodes/mixins/selection_sets.rb:37-67 | the node an older DSL call builds on its receiver; stated by `LegacyNodeProperties.ConstructShaped`, `LegacyNodeProperties.FieldFragmentRaises` and `LegacyNodeProperties.InlineFragmentKeepsType` |
| LegacyNodes.Apply | lib/graph_ql/dsl/nodes/mixins/selection_sets.rb:37-67 | one older DSL call: a node or a definition is pushed; stated by `LegacyNodeProperties.RunBlockOnlyPushes` and `LegacyBuilder.LegacyNodeBuilder.Perform` |
| LegacyNodes.RunBlock | lib/graph_ql/dsl/nodes/node.rb:21-26 | the older block evaluated call by call; stated by `LegacyNodeProperties.RunBlockShaped`, `LegacyNodeProperties.RunBlockOnlyPushes` and `LegacyBuilder.LegacyNodeBuilder.Run` |
| LegacyNodes.BuildDocument | lib/graph_ql/dsl/nodes/executable_document.rb:13-15 | the older `ExecutableDocument.new(&block)`; stated by `LegacyNodeProperties.DocumentShaped` and `LegacyBuilder.InitializeDocument` |
| LegacyBuilder.LegacyNodeBuilder.constructor | lib/graph_ql/dsl/nodes/node.rb:21-26 | a new node starts with no children and the given variable definitions |
| LegacyBuilder.LegacyNodeBuilder.Push | lib/graph_ql/dsl/nodes/mixins/selection_sets.rb:37-39 | a built child is pushed onto the node's children; a failed one leaves them unchanged |
| LegacyBuilder.LegacyNodeBuilder.Field | lib/graph_ql/dsl/nodes/mixins/selection_sets.rb:37-39 | `__field` changes the node as the call's specification says |
| LegacyBuilder.LegacyNodeBuilder.Fragment | lib/graph_ql/dsl/nodes/mixins/selection_sets.rb:54-56 | `__fragment` changes the node as specified, including the error a Field receiver raises |
| LegacyBuilder.LegacyNodeBuilder.InlineFragment | lib/graph_ql/dsl/nodes/mixins/selection_sets.rb:65-67 | `__inline_fragment` changes the node as specified |
| LegacyBuilder.LegacyNodeBuilder.Var | lib/graph_ql/dsl/nodes/operation.rb:52-54 | `__var` appends a variable definition as specified |
| LegacyBuilder.LegacyNodeBuilder.Operation | lib/graph_ql/dsl/nodes/executable_document.rb:24-48 | `query`, `mutation` and `subscription` append an operation as specified |
| LegacyBuilder.LegacyNodeBuilder.FragmentDefinition | lib/graph_ql/dsl/nodes/executable_document.rb:58-60 | `fragment` appends a fragment definition as specified |
| LegacyBuilder.LegacyNodeBuilder.Perform | lib/graph_ql/dsl/nodes/mixins/selection_sets.rb:37-67 | one DSL call changes the node exactly as `Apply` specifies |
| LegacyBuilder.LegacyNodeBuilder.Run | lib/graph_ql/dsl/nodes/node.rb:21-26 | evaluating a block changes the node exactly as `RunBlock` specifies |
| LegacyBuilder.InitializeField | lib/graph_ql/dsl/nodes/field.rb:27-32 | a Field is built with its block run on it |
| LegacyBuilder.InitializeInlineFragment | lib/graph_ql/dsl/nodes/inline_fragment.rb:23-31 | an InlineFragment is built after its three guards |
| LegacyBuilder.InitializeOperation | lib/graph_ql/dsl/nodes/operation.rb:33-41 | an Operation normalises its variable definitions and runs its block |
| LegacyBuilder.InitializeFragmentDefinition | lib/graph_ql/dsl/nodes/fragment_operation.rb:21-28 | a fragment definition needs a name and a type and runs its block |
| LegacyBuilder.InitializeDocument | lib/graph_ql/dsl/nodes/executable_document.rb:13-15 | a document is built by running its block |
| LegacyNodeProperties.ConstructShaped | lib/graph_ql/dsl/nodes/mixins/selection_sets.rb:37-67 | each call a receiver answers builds a node that receiver admits, with children of admitted kinds |
| LegacyNodeProperties.RunBlockShaped | lib/graph_ql/dsl/nodes/node.rb:21-26 | running a block keeps a node's children of admitted kinds |
| LegacyNodeProperties.DocumentShaped | lib/graph_ql/dsl/nodes/executable_document.rb:13-60 | a built document is well shaped throughout |
| LegacyNodeProperties.RunBlockOnlyPushes | lib/graph_ql/dsl/nodes/node.rb:21-26 | a block only appends, and each call adds exactly one child or one variable definition |
| LegacyNodeProperties.SugarOnlyBlocks | lib/graph_ql/dsl/nodes/mixins/fields.rb:32-46 | in a node that only has the `method_missing` sugar, an empty block does nothing and any explicit call raises |
| LegacyNodeProperties.FieldFragmentRaises | lib/graph_ql/dsl/nodes/field.rb:41-43 | `__fragment` inside a Field raises, while inside an operation it pushes a fragment spread |
| LegacyNodeProperties.InlineFragmentAsWrittenRaises | lib/graph_ql/dsl/nodes/mixins/selection_sets.rb:65-67 | as written, every `__inline_fragment(type) { … }` raises 'Sub-fields must not be specified for fragment' |
| LegacyNodeProperties.InlineFragmentWitness | lib/graph_ql/dsl/nodes/field.rb:52-54 | with type `User` and a block, the written call raises; without a block it prints `... User`; corrected, it prints `... on User` |
| LegacyNodeProperties.InlineFragmentKeepsType | lib/graph_ql/dsl/nodes/inline_fragment.rb:23-31 | corrected: a typed inline fragment needs a block and keeps its type as the type condition |
| LegacyNodeProperties.TranslateAll | lib/graph_ql/dsl/nodes/field.rb:58-72 | older child nodes map one for one onto current nodes |
| LegacyNodeProperties.FieldHeadAgrees | lib/graph_ql/dsl/nodes/field.rb:58-72 | an older field's head line equals the current field signature |
| LegacyNodeProperties.FragmentHeadAgrees | lib/graph_ql/dsl/nodes/fragment_operation.rb:32-41 | an older fragment's head line equals `fragment Name on Type` |
| LegacyNodeProperties.InlineFragmentHeadAgrees | lib/graph_ql/dsl/nodes/inline_fragment.rb:35-49 | an older typed inline fragment's head equals `... on Type` |
| LegacyNodeProperties.QueryHeadAgrees | lib/graph_ql/dsl/nodes/query.rb:24-33 | an older query's head is `query Name`, or absent for an anonymous query |
| LegacyNodeProperties.ToGqlAgrees | lib/graph_ql/dsl/nodes/node.rb:34-36 | on every tree both generations express, the older `to_gql` prints exactly what the current formatter prints |
| LegacyNodeProperties.FieldAgrees | lib/graph_ql/dsl/nodes/field.rb:58-72 | the same for fields |
| LegacyNodeProperties.FragmentAgrees | lib/graph_ql/dsl/nodes/fragment.rb:34-43 | the same for fragments |
| LegacyNodeProperties.FragmentOperationAgrees | lib/graph_ql/dsl/nodes/fragment_operation.rb:32-41 | the same for fragment operations |
| LegacyNodeProperties.FragmentLayoutAgrees | lib/graph_ql/dsl/nodes/fragment.rb:34-43 | the formatter prints a fragment definition as the head `fragment Name on Type` followed by its children between braces, the layout both older fragment classes produce |
| LegacyNodeProperties.InlineFragmentAgrees | lib/graph_ql/dsl/nodes/inline_fragment.rb:35-49 | the same for inline fragments |
| LegacyNodeProperties.InlineFragmentLayoutAgrees | lib/graph_ql/dsl/nodes/inline_fragment.rb:35-49 | the formatter prints a typed inline fragment as `... on Type` alone when it has no children, and otherwise followed by its children between braces |
| LegacyNodeProperties.QueryAgrees | lib/graph_ql/dsl/nodes/query.rb:24-33 | the same for queries |
| LegacyNodeProperties.QueryOperationAgrees | lib/graph_ql/dsl/nodes/query_operation.rb:24-33 | the same for query operations |
| LegacyNodeProperties.QueryLayoutAgrees | lib/graph_ql/dsl/nodes/query.rb:24-33 | the formatter prints a query as an optional `query Name` head followed by its children between braces, the layout both older query classes produce |
| LegacyNodeProperties.ChildrenAgree | lib/graph_ql/dsl/nodes/field.rb:58-72 | the same for lists of children |

## Left out

- The DSL's `method_missing` sugar (a bare `name` call becoming a field) and the `instance_eval` receiver rebinding are not modelled as Ruby dispatch. A block is an explicit sequence of `Call`s.
- The module-level facades (`GraphQL::DSL.query` and friends, `lib/graphql/dsl.rb`, `lib/graph_ql/dsl.rb`) and the require-only files are not modelled. `error.rb` and `constants.rb` became the `Error` datatype and the `Default` datatype, whose `Undefined` stands for `UNDEFINED`.
- Float rendering is `Float#to_s`; its text is kept as given, because floating point is out of scope.
- `String#dump` is modelled for the escapes a dumped string uses: `\"`, `\\`, the letter escapes, `\e`, `\#` before `{`, `$` and `@`, `\xHH` for other control bytes, and `\u` escapes above ASCII. Strings are sequences of code points, so no encoding or invalid bytes are modelled.
- Hash keys are strings. Symbol keys and String keys are not told apart.
- The current generation's directive formatter (`lib/graphql/dsl/formatter/directives.rb`) is not part of this model. Current-generation node trees carry `Directive` containers, printed as the test file for that formatter describes.
- Calls across the two generations that do not line up in the Ruby code are modelled by the evident intent, not as the ArgumentError or NoMethodError they would raise:
  - `lib/graphql/dsl/nodes/operation.rb:40` calls a one-argument `VariableDefinition.from`; it is modelled as `from(name, value)`.
  - `lib/graphql/dsl/nodes/operation.rb:57` calls `VariableDefinition.new(type, …)`; it is modelled as `new(name, type, …)`.
  - The older mixins pass `is_const` to one-parameter methods; they are modelled with the constant-aware printer.
  - The older `GraphQL::DSL::Operation` (`lib/graph_ql/dsl/nodes/operation.rb:7-8`) subclasses the current `Node` and includes the current `SelectionSet`, and the `Nodes::Operation` that `lib/graph_ql/dsl/nodes/executable_document.rb:25-47` builds is defined by no older file. The model reads it as an older-generation operation. `LegacyNodes.Responds` gives its `OperationReceiver` the older selection-set calls, which carry no `__directives:` and pass the inline-fragment type as the Finding describes, plus `__var`. The Operation case of `LegacyNodes.ToGql` raises NotImplementedError, as `Nodes::Node#to_gql` does. As written, the class would take the current `__field(…, __directives:)` and `__inline_fragment(type, __directives:)`, and its `to_gql` would be the current formatter's (`lib/graphql/dsl/nodes/node.rb:34-36`).
- The current `format_variable_definitions` is given the definition map's values (`NodeFormatter.DefinitionValues`).
- Older node kinds that include only the `Fields` sugar module (`Fragment`, `FragmentOperation`, `InlineFragment`, `Query`, `QueryOperation`) get children only through the sugar. The model gives them the `SugarOnlyReceiver`, in which any explicit call fails.
- `NodeFormatter.FormatNode`, `NodeFormatter.ToGql`, `ValueFormatter.FormatValue` and the other printers carry no `ensures` of their own beyond error cases; what they print is stated by the layout, rendering and agreement lemmas listed above.
- ContainerDirectiveFormatter.FormatEach: its own contract gives only the number of texts. Which text belongs to which container, and when the list fails, is stated by the lemma `ContainerDirectiveFormatter.EachInOrder`, so that the node-printing proofs do not carry those quantifiers.
- VariableFormatter.FormatEach: its own contract gives only the number of texts. Which text belongs to which container, and when the list fails, is stated by the lemma `VariableFormatter.EachInOrder`, and the whole clause by `VariableFormatter.ClauseText`.
- ShapeVariableFormatter.FormatPairs: its own contract gives only the number of texts. Which text belongs to which pair, and when the list fails, is stated by the lemma `ShapeVariableFormatter.PairsInOrder`, and the whole clause by `ShapeVariableFormatter.AbsentIffEmpty`.
- Where the code has a bug listed under Findings, the node model follows the corrected behaviour, and the as-written behaviour is kept beside it in its own member:
  - `NodeFormatter.FormatOperation` (and so `NodeFormatter.FormatNode` and the older `ToGql` agreement) prints `query @live` for an anonymous query with directives, where the code prints `@live`. The as-written keyword rule is `NodeFormatter.OperationSignatureAsWritten`.
  - `LegacyNodes.Construct`, and so `LegacyBuilder.LegacyNodeBuilder.InlineFragment`, builds `__inline_fragment(:User) { … }` as `... on User { … }`, where the code raises. The as-written argument order is `LegacyNodes.InlineFragmentArgumentsAsWritten`.
  - `DirectiveContainer.New`, and so `DirectiveContainer.LegacyFromHash`, `DirectiveContainer.LegacyFromArray`, `DirectiveContainer.LegacyFrom`, `DirectiveContainer.From` and every node constructor that normalises directives, reports a nameless directive as 'Directive name must be specified', where the code says 'Variable name must be specified'. The as-written constructor is `DirectiveContainer.NewAsWritten`.
- Arguments outside the documented types are refused where Ruby's duck typing would carry on. Names are Symbols or Strings, arguments a Hash, directives an Array:
  - `Values.RequiredText`, and so `DirectiveContainer.New`, `DirectiveContainer.NewAsWritten` and `VariableDefinitionContainer.New`, refuse a non-empty Array or Hash given as a name or type; Ruby's `nil? || empty?` guard would accept and store it.
  - `DirectiveFormatter.ArgumentsOf` refuses an Array of pairs given as directive arguments; Ruby's `format_arguments` would map over it, so `{name: :d, args: [[:a, 1]]}` would print `@d(a: 1)`.
  - `ShapeVariableFormatter.DirectivesPart` and `VariableMixin.DirectivesPart` refuse a non-empty Hash in a definition's directives slot; Ruby's `format_directives` would map it into `[key, value]` pairs and print them, so `{type: :Int, directives: {d: {}}}` would print `Int @d`.
  - `VariableDefinitionContainer.DirectivesOf` maps an Array and a Hash (`{}` gives no directives, a non-empty Hash fails in `from`); any other object fails, though Ruby would call its `map` if it had one.
- The error objects' extra context (`class:`, `value:` in `Error.new`) is not modelled; errors keep their message only.

## Findings

| source | as written | input that shows it | evidently intended | confidence | as-written member | corrected member |
|---|---|---|---|---|---|---|
| lib/graph_ql/dsl/formatter/operation.rb:51-57 | the `query` keyword is left out whenever the operation is a query with no name and no variables, even when it has directives | an anonymous query with directive `@live` prints `@live` then `{ … }`, which is not a valid operation | the keyword may be left out only for the shorthand form, which has no directives either | not executed | NodeFormatterProperties.AnonymousQueryDirectiveWitness | NodeFormatter.OperationKeyword |
| lib/graph_ql/dsl/nodes/mixins/selection_sets.rb:65-67 | `__inline_fragment(type, &block)` calls `InlineFragment.new(type, &block)`, which binds the type to the `name` parameter | `__inline_fragment(:User) { id }` raises 'Sub-fields must not be specified for fragment'; without a block it prints `... User` | pass the type as the type condition, giving `... on User { … }` | not executed | LegacyNodeProperties.InlineFragmentAsWrittenRaises | LegacyNodeProperties.InlineFragmentKeepsType |
| lib/graph_ql/dsl/nodes/containers/directive.rb:21-26 | a Directive with a nil or empty name raises 'Variable name must be specified' | `Directive.new(nil)` | the message should name the directive: 'Directive name must be specified', as the directive printers say | not executed | DirectiveContainer.WrongMessageWitness | DirectiveContainer.New |

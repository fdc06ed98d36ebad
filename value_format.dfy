/**
 * `format_value` of the current formatter: a caller value as a GraphQL input-value literal
 * (section 2.9 of the GraphQL specification, October 2021). In a constant context
 * (`isConst`, section 2.10's `Value[Const]`) a variable reference is refused at any depth.
 */
module ValueFormatter {
  import opened Wrappers
  import opened Values
  import Text
  import Decimal
  import StringDump

  /** `format_value(value, is_const)`. */
  function FormatValue(v: Value, isConst: bool): Result<string>
    decreases v
  {
    match v
    case Int(i) => Ok(Decimal.IntToString(i))
    case Float(text) => Ok(text)
    case Str(s) => Ok(StringDump.Dump(s))
    case Bool(b) => Ok(if b then "true" else "false")
    case Nil => Ok("null")
    case Sym(name) =>
      if IsVariable(name) && isConst then Err(DslError("Value must be constant")) else Ok(name)
    case List(items) =>
      var parts :- FormatElements(items, isConst);
      Ok("[" + Text.Join(parts, ", ") + "]")
    case Hash(entries) =>
      var parts :- FormatMembers(entries, isConst);
      Ok("{" + Text.Join(parts, ", ") + "}")
    case _ => Err(DslError("Unsupported value type"))
  }

  /** The list elements rendered in order; the first failure is the result. */
  function FormatElements(items: seq<Value>, isConst: bool): (r: Result<seq<string>>)
    decreases items
    ensures r.Ok? ==> |r.value| == |items|
    ensures r.Ok? ==> forall i | 0 <= i < |items| :: FormatValue(items[i], isConst) == Ok(r.value[i])
  {
    if items == [] then Ok([])
    else
      var first :- FormatValue(items[0], isConst);
      var rest :- FormatElements(items[1..], isConst);
      assert forall i | 1 <= i < |items| :: items[i] == items[1..][i - 1];
      Ok([first] + rest)
  }

  /** One object field, `name: value`. */
  function FormatMember(m: Entry, isConst: bool): Result<string>
    decreases m
  {
    var v :- FormatValue(m.1, isConst);
    Ok(m.0 + ": " + v)
  }

  /** The object fields rendered in insertion order; the first failure is the result. */
  function FormatMembers(entries: seq<Entry>, isConst: bool): (r: Result<seq<string>>)
    decreases entries
    ensures r.Ok? ==> |r.value| == |entries|
    ensures r.Ok? ==> forall i | 0 <= i < |entries| :: FormatMember(entries[i], isConst) == Ok(r.value[i])
  {
    if entries == [] then Ok([])
    else
      var first :- FormatMember(entries[0], isConst);
      var rest :- FormatMembers(entries[1..], isConst);
      assert forall i | 1 <= i < |entries| :: entries[i] == entries[1..][i - 1];
      Ok([first] + rest)
  }

  /** Every value in the tree is of a kind the codec renders. */
  predicate Supported(v: Value)
    decreases v
  {
    match v
    case List(items) => forall i | 0 <= i < |items| :: Supported(items[i])
    case Hash(entries) => forall i | 0 <= i < |entries| :: SupportedMember(entries[i])
    case DirectiveValue(_) => false
    case VariableDefinitionValue(_) => false
    case Other(_) => false
    case _ => true
  }

  predicate SupportedMember(m: Entry)
    decreases m
  {
    Supported(m.1)
  }

  /** A variable reference occurs somewhere in the tree. */
  predicate HasVariable(v: Value)
    decreases v
  {
    match v
    case Sym(name) => IsVariable(name)
    case List(items) => exists i | 0 <= i < |items| :: HasVariable(items[i])
    case Hash(entries) => exists i | 0 <= i < |entries| :: MemberHasVariable(entries[i])
    case _ => false
  }

  predicate MemberHasVariable(m: Entry)
    decreases m
  {
    HasVariable(m.1)
  }

  /** A value renders exactly when it is supported throughout and, in a constant context, holds no variable. */
  lemma {:induction false} FormatSucceedsIff(v: Value, isConst: bool)
    decreases v
    ensures FormatValue(v, isConst).Ok? <==> Supported(v) && !(isConst && HasVariable(v))
  {
    match v
    case List(items) => ElementsSucceedIff(items, isConst);
    case Hash(entries) => MembersSucceedIff(entries, isConst);
    case _ =>
  }

  lemma {:induction false} ElementsSucceedIff(items: seq<Value>, isConst: bool)
    decreases items
    ensures FormatElements(items, isConst).Ok? <==>
      (forall i | 0 <= i < |items| :: Supported(items[i])) &&
      !(isConst && exists i | 0 <= i < |items| :: HasVariable(items[i]))
  {
    if items != [] {
      FormatSucceedsIff(items[0], isConst);
      ElementsSucceedIff(items[1..], isConst);
      assert forall i | 1 <= i < |items| :: items[i] == items[1..][i - 1];
    }
  }

  lemma {:induction false} MembersSucceedIff(entries: seq<Entry>, isConst: bool)
    decreases entries
    ensures FormatMembers(entries, isConst).Ok? <==>
      (forall i | 0 <= i < |entries| :: SupportedMember(entries[i])) &&
      !(isConst && exists i | 0 <= i < |entries| :: MemberHasVariable(entries[i]))
  {
    if entries != [] {
      MemberSucceedsIff(entries[0], isConst);
      MembersSucceedIff(entries[1..], isConst);
      assert forall i | 1 <= i < |entries| :: entries[i] == entries[1..][i - 1];
    }
  }

  lemma {:induction false} MemberSucceedsIff(m: Entry, isConst: bool)
    decreases m
    ensures FormatMember(m, isConst).Ok? <==> SupportedMember(m) && !(isConst && MemberHasVariable(m))
  {
    FormatSucceedsIff(m.1, isConst);
  }

  /** The flag only matters for variables: without one, both contexts give the same result. */
  lemma {:induction false} ConstOnlyRestrictsVariables(v: Value)
    decreases v
    requires !HasVariable(v)
    ensures FormatValue(v, true) == FormatValue(v, false)
  {
    match v
    case List(items) => ElementsConstOnlyRestrictsVariables(items);
    case Hash(entries) => MembersConstOnlyRestrictsVariables(entries);
    case _ =>
  }

  lemma {:induction false} ElementsConstOnlyRestrictsVariables(items: seq<Value>)
    decreases items
    requires forall i | 0 <= i < |items| :: !HasVariable(items[i])
    ensures FormatElements(items, true) == FormatElements(items, false)
  {
    if items != [] {
      ConstOnlyRestrictsVariables(items[0]);
      ElementsConstOnlyRestrictsVariables(items[1..]);
    }
  }

  lemma {:induction false} MembersConstOnlyRestrictsVariables(entries: seq<Entry>)
    decreases entries
    requires forall i | 0 <= i < |entries| :: !MemberHasVariable(entries[i])
    ensures FormatMembers(entries, true) == FormatMembers(entries, false)
  {
    if entries != [] {
      MemberConstOnlyRestrictsVariables(entries[0]);
      MembersConstOnlyRestrictsVariables(entries[1..]);
    }
  }

  lemma {:induction false} MemberConstOnlyRestrictsVariables(m: Entry)
    decreases m
    requires !MemberHasVariable(m)
    ensures FormatMember(m, true) == FormatMember(m, false)
  {
    ConstOnlyRestrictsVariables(m.1);
  }

  /** Whatever the constant context accepts, it renders exactly as the general context does. */
  lemma ConstAcceptsAsGeneral(v: Value)
    requires FormatValue(v, true).Ok?
    ensures FormatValue(v, true) == FormatValue(v, false)
  {
    FormatSucceedsIff(v, true);
    ConstOnlyRestrictsVariables(v);
  }

  /** The error a failing value raises: the two messages of the codec, and which one when only one applies. */
  lemma {:induction false} FormatErrors(v: Value, isConst: bool)
    decreases v
    ensures FormatValue(v, isConst).Err? ==>
      FormatValue(v, isConst) == Err(DslError("Value must be constant")) ||
      FormatValue(v, isConst) == Err(DslError("Unsupported value type"))
    ensures Supported(v) && isConst && HasVariable(v) ==>
      FormatValue(v, isConst) == Err(DslError("Value must be constant"))
    ensures !Supported(v) && !(isConst && HasVariable(v)) ==>
      FormatValue(v, isConst) == Err(DslError("Unsupported value type"))
  {
    match v
    case List(items) => ElementsErrors(items, isConst);
    case Hash(entries) => MembersErrors(entries, isConst);
    case _ =>
  }

  lemma {:induction false} ElementsErrors(items: seq<Value>, isConst: bool)
    decreases items
    ensures FormatElements(items, isConst).Err? ==>
      FormatElements(items, isConst).error in {DslError("Value must be constant"), DslError("Unsupported value type")}
    ensures ((forall i | 0 <= i < |items| :: Supported(items[i])) && isConst &&
      (exists i | 0 <= i < |items| :: HasVariable(items[i]))) ==>
      FormatElements(items, isConst) == Err(DslError("Value must be constant"))
    ensures ((exists i | 0 <= i < |items| :: !Supported(items[i])) &&
      !(isConst && exists i | 0 <= i < |items| :: HasVariable(items[i]))) ==>
      FormatElements(items, isConst) == Err(DslError("Unsupported value type"))
  {
    if items != [] {
      FormatErrors(items[0], isConst);
      FormatSucceedsIff(items[0], isConst);
      ElementsErrors(items[1..], isConst);
      assert forall i | 1 <= i < |items| :: items[i] == items[1..][i - 1];
    }
  }

  lemma {:induction false} MembersErrors(entries: seq<Entry>, isConst: bool)
    decreases entries
    ensures FormatMembers(entries, isConst).Err? ==>
      FormatMembers(entries, isConst).error in {DslError("Value must be constant"), DslError("Unsupported value type")}
    ensures ((forall i | 0 <= i < |entries| :: SupportedMember(entries[i])) && isConst &&
      (exists i | 0 <= i < |entries| :: MemberHasVariable(entries[i]))) ==>
      FormatMembers(entries, isConst) == Err(DslError("Value must be constant"))
    ensures ((exists i | 0 <= i < |entries| :: !SupportedMember(entries[i])) &&
      !(isConst && exists i | 0 <= i < |entries| :: MemberHasVariable(entries[i]))) ==>
      FormatMembers(entries, isConst) == Err(DslError("Unsupported value type"))
  {
    if entries != [] {
      MemberErrors(entries[0], isConst);
      MembersErrors(entries[1..], isConst);
      assert forall i | 1 <= i < |entries| :: entries[i] == entries[1..][i - 1];
    }
  }

  lemma {:induction false} MemberErrors(m: Entry, isConst: bool)
    decreases m
    ensures FormatMember(m, isConst).Err? ==>
      FormatMember(m, isConst).error in {DslError("Value must be constant"), DslError("Unsupported value type")}
    ensures SupportedMember(m) && isConst && MemberHasVariable(m) ==>
      FormatMember(m, isConst) == Err(DslError("Value must be constant"))
    ensures !SupportedMember(m) && !(isConst && MemberHasVariable(m)) ==>
      FormatMember(m, isConst) == Err(DslError("Unsupported value type"))
    ensures FormatMember(m, isConst).Ok? <==> SupportedMember(m) && !(isConst && MemberHasVariable(m))
  {
    FormatErrors(m.1, isConst);
    FormatSucceedsIff(m.1, isConst);
  }

  /** Scalars: an Integer reads back as the same number, `true`/`false`, and `null`. */
  lemma ScalarRendering(i: int, b: bool, isConst: bool)
    ensures FormatValue(Int(i), isConst).Ok? && Decimal.ParseInt(FormatValue(Int(i), isConst).value) == i
    ensures FormatValue(Bool(b), isConst) == Ok(if b then "true" else "false")
    ensures FormatValue(Nil, isConst) == Ok("null")
  {
    Decimal.IntRoundTrip(i);
  }

  /** A String renders as a one-line quoted literal that reads back to the same string. */
  lemma StringRendering(s: string, isConst: bool)
    ensures FormatValue(Str(s), isConst).Ok?
    ensures StringDump.Undump(FormatValue(Str(s), isConst).value) == Some(s)
    ensures '\n' !in FormatValue(Str(s), isConst).value
  {
    StringDump.DumpRoundTrip(s);
    StringDump.DumpIsOneLine(s);
  }

  /** A Symbol renders as its own text, except a `$` variable in a constant context, which is refused. */
  lemma SymbolRendering(name: string, isConst: bool)
    ensures FormatValue(Sym(name), isConst) ==
      if IsVariable(name) && isConst then Err(DslError("Value must be constant")) else Ok(name)
  {
  }

  /**
   * A list renders as its elements in order between brackets, and an object as its fields in
   * insertion order between braces, each field `name: value`; empty ones give `[]` and `{}`.
   */
  lemma CompoundRendering(items: seq<Value>, entries: seq<Entry>, isConst: bool)
    ensures FormatValue(List([]), isConst) == Ok("[]") && FormatValue(Hash([]), isConst) == Ok("{}")
    ensures FormatValue(List(items), isConst).Ok? ==>
      exists parts: seq<string> | |parts| == |items| ::
        FormatValue(List(items), isConst).value == "[" + Text.Join(parts, ", ") + "]" &&
        forall i | 0 <= i < |items| :: FormatValue(items[i], isConst) == Ok(parts[i])
    ensures FormatValue(Hash(entries), isConst).Ok? ==>
      exists parts: seq<string> | |parts| == |entries| ::
        FormatValue(Hash(entries), isConst).value == "{" + Text.Join(parts, ", ") + "}" &&
        forall i | 0 <= i < |entries| :: FormatValue(entries[i].1, isConst).Ok? &&
          parts[i] == entries[i].0 + ": " + FormatValue(entries[i].1, isConst).value
  {
    assert Text.Join([], ", ") == "";
    assert FormatElements([], isConst) == Ok([]) && FormatMembers([], isConst) == Ok([]);
    assert "[" + "" + "]" == "[]" && "{" + "" + "}" == "{}";
    var elements := FormatElements(items, isConst);
    if elements.Ok? {
      assert FormatValue(List(items), isConst).value == "[" + Text.Join(elements.value, ", ") + "]";
    }
    var members := FormatMembers(entries, isConst);
    if members.Ok? {
      assert FormatValue(Hash(entries), isConst).value == "{" + Text.Join(members.value, ", ") + "}";
    }
  }
}

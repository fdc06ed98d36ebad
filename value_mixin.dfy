/**
 * `__value_to_s` of the earlier generation's `Values` mixin: the same literal syntax as the
 * current formatter, but with no constant context, so every Symbol renders as its own text.
 */
module ValueMixin {
  import opened Wrappers
  import opened Values
  import Text
  import Decimal
  import StringDump
  import ValueFormatter

  /** `__value_to_s(value)`. */
  function ValueToS(v: Value): Result<string>
    decreases v
  {
    match v
    case Int(i) => Ok(Decimal.IntToString(i))
    case Float(text) => Ok(text)
    case Str(s) => Ok(StringDump.Dump(s))
    case Bool(b) => Ok(if b then "true" else "false")
    case Nil => Ok("null")
    case Sym(name) => Ok(name)
    case List(items) =>
      var parts :- ElementsToS(items);
      Ok("[" + Text.Join(parts, ", ") + "]")
    case Hash(entries) =>
      var parts :- MembersToS(entries);
      Ok("{" + Text.Join(parts, ", ") + "}")
    case _ => Err(DslError("Unsupported value type"))
  }

  function ElementsToS(items: seq<Value>): Result<seq<string>>
    decreases items
  {
    if items == [] then Ok([])
    else
      var first :- ValueToS(items[0]);
      var rest :- ElementsToS(items[1..]);
      Ok([first] + rest)
  }

  function MemberToS(m: Entry): Result<string>
    decreases m
  {
    var v :- ValueToS(m.1);
    Ok(m.0 + ": " + v)
  }

  function MembersToS(entries: seq<Entry>): Result<seq<string>>
    decreases entries
  {
    if entries == [] then Ok([])
    else
      var first :- MemberToS(entries[0]);
      var rest :- MembersToS(entries[1..]);
      Ok([first] + rest)
  }

  /** The earlier codec is the current one outside a constant context, on every value and every error. */
  lemma {:induction false} AgreesWithFormatter(v: Value)
    decreases v
    ensures ValueToS(v) == ValueFormatter.FormatValue(v, false)
  {
    match v
    case List(items) => ElementsAgree(items);
    case Hash(entries) => MembersAgree(entries);
    case _ =>
  }

  lemma {:induction false} ElementsAgree(items: seq<Value>)
    decreases items
    ensures ElementsToS(items) == ValueFormatter.FormatElements(items, false)
  {
    if items != [] {
      AgreesWithFormatter(items[0]);
      ElementsAgree(items[1..]);
    }
  }

  lemma {:induction false} MemberAgrees(m: Entry)
    decreases m
    ensures MemberToS(m) == ValueFormatter.FormatMember(m, false)
  {
    AgreesWithFormatter(m.1);
  }

  lemma {:induction false} MembersAgree(entries: seq<Entry>)
    decreases entries
    ensures MembersToS(entries) == ValueFormatter.FormatMembers(entries, false)
  {
    if entries != [] {
      MemberAgrees(entries[0]);
      MembersAgree(entries[1..]);
    }
  }

  /** With no constant check, a value renders exactly when every part of it is of a supported kind. */
  lemma SucceedsIffSupported(v: Value)
    ensures ValueToS(v).Ok? <==> ValueFormatter.Supported(v)
    ensures ValueToS(v).Err? ==> ValueToS(v) == Err(DslError("Unsupported value type"))
  {
    AgreesWithFormatter(v);
    ValueFormatter.FormatSucceedsIff(v, false);
    ValueFormatter.FormatErrors(v, false);
  }

  /** Every Symbol, variable or enum, renders as its own text. */
  lemma SymbolRendering(name: string)
    ensures ValueToS(Sym(name)) == Ok(name)
  {
  }
}

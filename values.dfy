/**
 * The Ruby objects a caller hands to the DSL, as one dynamic value type.
 * Hash keys are kept as their text (`:a` and `"a"` are the same key here), and a hash is the
 * ordered list of its entries, so insertion order is part of the value.
 */
module Values {
  import opened Wrappers

  datatype Value =
    | Int(i: int)
    | Float(text: string)                // `Float#to_s`, kept as its rendered text
    | Str(s: string)
    | Bool(b: bool)
    | Nil
    | Sym(name: string)
    | List(items: seq<Value>)
    | Hash(entries: seq<Entry>)
    | DirectiveValue(directive: Directive)
    | VariableDefinitionValue(definition: VariableDefinition)
    | Other(className: string)           // any object of a class the DSL does not know

  type Entry = (string, Value)

  /** A default value, or the `UNDEFINED` sentinel meaning that no default was given. */
  datatype Default = Undefined | Given(value: Value)

  /** The directive container: a name and its arguments (a Hash unless a caller passed something else). */
  datatype Directive = Directive(name: string, arguments: Value)

  /** The variable-definition container of the current generation. */
  datatype VariableDefinition = VariableDefinition(name: string, typeName: string, default: Default, directives: seq<Directive>)

  /** A Symbol whose text starts with `$` is a variable reference; any other Symbol is an enum value. */
  predicate IsVariable(name: string)
  {
    |name| > 0 && name[0] == '$'
  }

  predicate HasKey(entries: seq<Entry>, key: string)
  {
    exists i | 0 <= i < |entries| :: entries[i].0 == key
  }

  /** `hash[key]`: the value stored under `key`, if any. */
  function Lookup(entries: seq<Entry>, key: string): (r: Option<Value>)
    ensures r.Some? <==> HasKey(entries, key)
    ensures r.Some? ==> exists i | 0 <= i < |entries| :: entries[i] == (key, r.value)
  {
    if entries == [] then None
    else if entries[0].0 == key then Some(entries[0].1)
    else
      var r := Lookup(entries[1..], key);
      assert r.Some? ==> exists i | 0 <= i < |entries[1..]| :: entries[1..][i] == (key, r.value);
      assert forall i | 0 <= i < |entries[1..]| :: entries[1..][i] == entries[i + 1];
      r
  }

  /** `hash[key]`: a missing key reads as `nil`. */
  function Get(entries: seq<Entry>, key: string): Value
  {
    match Lookup(entries, key)
    case Some(v) => v
    case None => Nil
  }

  /** `hash.fetch(key, fallback)`. */
  function Fetch(entries: seq<Entry>, key: string, fallback: Value): Value
  {
    match Lookup(entries, key)
    case Some(v) => v
    case None => fallback
  }

  /** `array[i]`: an index past the end reads as `nil`. */
  function At(items: seq<Value>, i: nat): Value
  {
    if i < |items| then items[i] else Nil
  }

  /** `array.fetch(i, fallback)`. */
  function FetchAt(items: seq<Value>, i: nat, fallback: Value): Value
  {
    if i < |items| then items[i] else fallback
  }

  /**
   * The `x.nil? || x.empty?` guard on a name or a type, with `message` as the error it raises.
   * A non-empty Symbol or String gives its text.
   */
  function RequiredText(v: Value, message: string): (r: Result<string>)
    ensures r.Ok? <==> ((v.Sym? || v.Str?) && TextOf(v) != "")
    ensures r.Ok? ==> r.value == TextOf(v)
    ensures r == Err(DslError(message)) <==> (v.Nil? || Blank(v))
  {
    match v
    case Nil => Err(DslError(message))
    case Sym(s) => if s == "" then Err(DslError(message)) else Ok(s)
    case Str(s) => if s == "" then Err(DslError(message)) else Ok(s)
    case List(items) => if items == [] then Err(DslError(message)) else Err(RubyError("name is neither a Symbol nor a String"))
    case Hash(entries) => if entries == [] then Err(DslError(message)) else Err(RubyError("name is neither a Symbol nor a String"))
    case _ => Err(RubyError("undefined method 'empty?'"))
  }

  /** The text of a Symbol or String. */
  function TextOf(v: Value): string
    requires v.Sym? || v.Str?
  {
    if v.Sym? then v.name else v.s
  }

  /** `v.empty?` is true. */
  predicate Blank(v: Value)
  {
    match v
    case Sym(s) => s == ""
    case Str(s) => s == ""
    case List(items) => items == []
    case Hash(entries) => entries == []
    case _ => false
  }
}

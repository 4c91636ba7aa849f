/**
  Custom schema properties (index.js, JsonSchemaCustomPropertyError and
  addSchemaProperties).

  The package keeps one process-wide registry of custom schema properties,
  name to evaluator. Registering walks the new properties in key order and
  throws at the first name that a freshly built validator already knows as a
  built-in attribute; the names walked before it stay registered.
 */
module CustomProperties {
  import opened Wrappers

  const ErrorName := "JsonSchemaCustomPropertyError"
  const MessagePrefix := "express-jsonschema: The schema property \""
  const MessageSuffix := "\"" + " already exists. See if it achieves what you need or try " + "giving it another name."

  /** The error thrown for a name that clashes with a built-in attribute. */
  datatype CustomPropertyError = CustomPropertyError(name: string, message: string)

  /** The JsonSchemaCustomPropertyError constructor: the error is named
      JsonSchemaCustomPropertyError and its message names the property, in a
      form the name can be read back from. */
  function NewCustomPropertyError(propertyName: string): (e: CustomPropertyError)
    ensures e.name == ErrorName
    ensures OffendingName(e.message) == Some(propertyName)
  {
    CustomPropertyError(ErrorName, MessagePrefix + propertyName + MessageSuffix)
  }

  /** Reads the offending name back out of an error message, if the message
      has the shape of the template. */
  function OffendingName(message: string): (r: Option<string>)
    ensures r.Some? ==> MessagePrefix + r.value + MessageSuffix == message
  {
    var p, s := |MessagePrefix|, |MessageSuffix|;
    if p + s <= |message| && message[..p] == MessagePrefix && message[|message| - s..] == MessageSuffix then
      var name := message[p..|message| - s];
      assert message == message[..p] + name + message[|message| - s..];
      Some(name)
    else
      None
  }

  /** Two names never share a message: the message identifies the property. */
  lemma MessageIdentifiesProperty(a: string, b: string)
    ensures NewCustomPropertyError(a).message == NewCustomPropertyError(b).message <==> a == b
  {
    if NewCustomPropertyError(a).message == NewCustomPropertyError(b).message {
      assert Some(a) == OffendingName(NewCustomPropertyError(a).message) == Some(b);
    }
  }

  /** The text the unit test expects for "minLength". */
  lemma MinLengthMessage()
    ensures NewCustomPropertyError("minLength").message ==
      "express-jsonschema: The schema property \"minLength\"" +
      " already exists. See if it achieves what you need or try " +
      "giving it another name."
  {
    var head := "express-jsonschema: The schema property \"minLength\"";
    var middle := " already exists. See if it achieves what you need or try ";
    var tail := "giving it another name.";
    assert MessagePrefix + "minLength" + "\"" == head;
    assert NewCustomPropertyError("minLength").message == MessagePrefix + "minLength" + ("\"" + middle + tail);
    assert MessagePrefix + "minLength" + ("\"" + middle + tail) == head + middle + tail;
  }

  /** Position of the first new property whose name is a built-in attribute,
      or the number of new properties when there is none. */
  function FirstBuiltin<E>(props: seq<(string, E)>, builtins: set<string>): (i: nat)
    ensures i <= |props|
    ensures forall j :: 0 <= j < i ==> props[j].0 !in builtins
    ensures i < |props| ==> props[i].0 in builtins
  {
    if props == [] then 0
    else if props[0].0 in builtins then 0
    else 1 + FirstBuiltin(props[1..], builtins)
  }

  /** The registry after writing the given properties one after another. */
  function Register<E>(m: map<string, E>, props: seq<(string, E)>): (r: map<string, E>)
    ensures r.Keys == m.Keys + set j | 0 <= j < |props| :: props[j].0
  {
    if props == [] then m
    else
      var n := |props|;
      var r := Register(m, props[..n - 1])[props[n - 1].0 := props[n - 1].1];
      assert forall j :: 0 <= j < n - 1 ==> props[..n - 1][j] == props[j];
      r
  }

  /** A name no new property carries keeps what it mapped to before. */
  lemma {:induction false} RegisterKeepsOthers<E>(m: map<string, E>, props: seq<(string, E)>, k: string)
    requires forall j :: 0 <= j < |props| ==> props[j].0 != k
    ensures k in Register(m, props) <==> k in m
    ensures k in m ==> Register(m, props)[k] == m[k]
    decreases |props|
  {
    if props != [] {
      var n := |props|;
      assert forall j :: 0 <= j < n - 1 ==> props[..n - 1][j] == props[j];
      RegisterKeepsOthers(m, props[..n - 1], k);
    }
  }

  /** A name maps to the evaluator of the last new property carrying it. */
  lemma {:induction false} RegisterLastWins<E>(m: map<string, E>, props: seq<(string, E)>, j: nat)
    requires j < |props|
    requires forall j' :: j < j' < |props| ==> props[j'].0 != props[j].0
    ensures props[j].0 in Register(m, props) && Register(m, props)[props[j].0] == props[j].1
    decreases |props|
  {
    var n := |props|;
    var prefix := props[..n - 1];
    assert Register(m, props) == Register(m, prefix)[props[n - 1].0 := props[n - 1].1];
    if j < n - 1 {
      assert forall j' :: j < j' < n - 1 ==> prefix[j'] == props[j'];
      assert prefix[j] == props[j];
      RegisterLastWins(m, prefix, j);
      assert props[n - 1].0 != props[j].0;
    }
  }

  /** The process-wide registry of custom schema properties. `builtins` is
      the set of attribute names a freshly built validator answers to. */
  class Registry<E> {
    const builtins: set<string>
    var custom: map<string, E>

    /** A registered name never shadows a built-in attribute. */
    ghost predicate Valid()
      reads this
    {
      custom.Keys !! builtins
    }

    constructor (builtins: set<string>)
      ensures this.builtins == builtins && custom == map[] && Valid()
    {
      this.builtins := builtins;
      custom := map[];
    }

    /** addSchemaProperties: returns the thrown error, if any. */
    method AddSchemaProperties(newProperties: seq<(string, E)>) returns (thrown: Option<CustomPropertyError>)
      requires Valid()
      modifies this
      ensures Valid()
      ensures var i := FirstBuiltin(newProperties, builtins);
        && thrown == (if i < |newProperties| then Some(NewCustomPropertyError(newProperties[i].0)) else None)
        && custom == Register(old(custom), newProperties[..i])
    {
      thrown := None;
      var i := 0;
      while i < |newProperties|
        invariant 0 <= i <= |newProperties|
        invariant forall j :: 0 <= j < i ==> newProperties[j].0 !in builtins
        invariant custom == Register(old(custom), newProperties[..i])
        invariant Valid()
      {
        var (attr, evaluator) := newProperties[i];
        if attr in builtins {
          thrown := Some(NewCustomPropertyError(attr));
          return;
        }
        assert newProperties[..i + 1][..i] == newProperties[..i];
        custom := custom[attr := evaluator];
        i := i + 1;
      }
      assert newProperties[..|newProperties|] == newProperties;
    }
  }
}

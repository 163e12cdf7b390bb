/**
 * The two-tier store of environment variables: definitions (a schema name and
 * an optional default) and values (an override that references a definition).
 * The store is read in sequence order; `FirstOrDefault` becomes "the first
 * entry that satisfies the condition".
 */
module Lookup {
  import opened Options

  /** An `environmentvariabledefinition` record. A null `defaultvalue` is `None`. */
  datatype Definition = Definition(id: int, schemaName: string, defaultValue: Option<string>)

  /** An `environmentvariablevalue` record, referencing its definition by id. A null `value` is `None`. */
  datatype VariableValue = VariableValue(definitionId: int, value: Option<string>)

  /** The records the engine can query. */
  datatype Store = Store(definitions: seq<Definition>, values: seq<VariableValue>)

  /** `j` is the first definition whose schema name is `name`. */
  predicate FirstDefinition(defs: seq<Definition>, name: string, j: int) {
    0 <= j < |defs| && defs[j].schemaName == name &&
    forall i :: 0 <= i < j ==> defs[i].schemaName != name
  }

  /** `k` is the first value referencing definition `id`. */
  predicate FirstValue(values: seq<VariableValue>, id: int, k: int) {
    0 <= k < |values| && values[k].definitionId == id &&
    forall i :: 0 <= i < k ==> values[i].definitionId != id
  }

  /**
   * The definition query: the first definition, in store order, whose schema
   * name equals `name` character for character. The server would compare
   * under its collation and return rows in no defined order.
   */
  function FindDefinition(defs: seq<Definition>, name: string): (r: Option<nat>)
    ensures r.Some? ==> FirstDefinition(defs, name, r.value)
    ensures r.None? <==> forall i :: 0 <= i < |defs| ==> defs[i].schemaName != name
  {
    if |defs| == 0 then None
    else if defs[0].schemaName == name then Some(0)
    else match FindDefinition(defs[1..], name)
      case None => None
      case Some(j) => Some(j + 1)
  }

  /** The value query: the first value, in store order, whose definition reference is `id`. */
  function FindValue(values: seq<VariableValue>, id: int): (r: Option<nat>)
    ensures r.Some? ==> FirstValue(values, id, r.value)
    ensures r.None? <==> forall i :: 0 <= i < |values| ==> values[i].definitionId != id
  {
    if |values| == 0 then None
    else if values[0].definitionId == id then Some(0)
    else match FindValue(values[1..], id)
      case None => None
      case Some(k) => Some(k + 1)
  }

  /** Conversely, the query finds the first definition with the name. */
  lemma FindDefinitionFirst(defs: seq<Definition>, name: string, j: int)
    requires FirstDefinition(defs, name, j)
    ensures FindDefinition(defs, name) == Some(j)
  {
    var r := FindDefinition(defs, name);
    assert r.Some? by { assert defs[j].schemaName == name; }
    assert !(r.value < j);
  }

  /** Conversely, the query finds the first value referencing the definition. */
  lemma FindValueFirst(values: seq<VariableValue>, id: int, k: int)
    requires FirstValue(values, id, k)
    ensures FindValue(values, id) == Some(k)
  {
    var r := FindValue(values, id);
    assert r.Some? by { assert values[k].definitionId == id; }
    assert !(r.value < k);
  }
}

/**
 The values `json.loads` produces: `None`, booleans, numbers, strings, lists
 and dicts. A dict keeps its members in insertion order, which is the order
 `dict.values()` reports them in.
 */
module Json {

  datatype JsonValue =
    | JNull
    | JBool(b: bool)
    | JNumber(lexeme: string)
    | JString(s: string)
    | JArray(items: seq<JsonValue>)
    | JObject(members: seq<Member>)

  /** One `key: value` entry of a dict. */
  datatype Member = Member(key: string, value: JsonValue)

  /** The values of a dict, in insertion order. */
  function Values(ms: seq<Member>): (vs: seq<JsonValue>)
    ensures |vs| == |ms|
    ensures forall i :: 0 <= i < |ms| ==> vs[i] == ms[i].value
  {
    seq(|ms|, i requires 0 <= i < |ms| => ms[i].value)
  }

  /** `n` is a node of the tree `o`: `o` itself, or a node inside one of its elements or values. */
  ghost predicate Within(n: JsonValue, o: JsonValue)
    decreases o
  {
    || n == o
    || (o.JArray? && exists i :: 0 <= i < |o.items| && Within(n, o.items[i]))
    || (o.JObject? && exists j :: 0 <= j < |o.members| && Within(n, o.members[j].value))
  }

  /** The number of dict nodes in a tree, counting every occurrence. */
  function CountObjects(o: JsonValue): nat
    decreases o
  {
    match o
    case JObject(ms) => 1 + CountMembers(ms)
    case JArray(items) => CountItems(items)
    case _ => 0
  }

  function CountItems(items: seq<JsonValue>): nat
    decreases items
  {
    if items == [] then 0 else CountObjects(items[0]) + CountItems(items[1..])
  }

  function CountMembers(ms: seq<Member>): nat
    decreases ms
  {
    if ms == [] then 0 else CountObjects(ms[0].value) + CountMembers(ms[1..])
  }
}

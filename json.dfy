/** JSON values, as the JSON-text grammar of RFC 8259 describes them. */
module Json {
  import opened Wrappers

  /** A JSON value. A number keeps its lexical form: nothing here computes
      with numbers, and floating point is not modelled. An object keeps its
      members in order, repeated names included. */
  datatype JsonValue =
    | Null
    | Bool(b: bool)
    | Number(lexeme: string)
    | Str(s: string)
    | Array(elements: seq<JsonValue>)
    | Object(members: seq<(string, JsonValue)>)

  /** The value the member called `name` carries; when a name repeats, the
      last member wins, as it does for a JavaScript object. */
  function Lookup(members: seq<(string, JsonValue)>, name: string): (r: Option<JsonValue>)
    ensures r.Some? ==> (name, r.value) in members
    ensures r.None? ==> forall i :: 0 <= i < |members| ==> members[i].0 != name
  {
    if members == [] then None
    else if members[|members| - 1].0 == name then Some(members[|members| - 1].1)
    else Lookup(members[..|members| - 1], name)
  }
}

/**
 * The slice of a parsed JSON value the consumer looks at
 * (src/main.rs lines 92-93): the top-level `response` field, taken only
 * when it is a string. Parsing itself is left to the caller.
 */
module Json {
  import opened Wrappers

  /** A generic JSON document, as `serde_json::Value` represents it. */
  datatype Json =
    | Null
    | Bool(b: bool)
    | Number(literal: string)
    | Str(s: string)
    | Array(items: seq<Json>)
    | Object(fields: map<string, Json>)

  const ResponseKey: string := "response"

  /** The string value of the top-level `response` field, if there is one. */
  function ResponseField(v: Json): (r: Option<string>)
    ensures r.Some? <==> v.Object? && ResponseKey in v.fields && v.fields[ResponseKey].Str?
    ensures r.Some? ==> r.value == v.fields[ResponseKey].s
  {
    match v
    case Object(fields) =>
      if ResponseKey in fields && fields[ResponseKey].Str? then Some(fields[ResponseKey].s) else None
    case _ => None
  }

  /** Status records such as `{"done":true}` carry no text, and neither
      does a `response` that is not a string or a document that is not
      an object. */
  lemma NonTextRecordsCarryNothing(fields: map<string, Json>, items: seq<Json>)
    ensures ResponseField(Object(map["done" := Bool(true)])) == None
    ensures ResponseField(Object(fields[ResponseKey := Number("1")])) == None
    ensures ResponseField(Array(items)) == None
    ensures ResponseField(Object(fields[ResponseKey := Str("hi")])) == Some("hi")
  {
    assert ResponseKey !in map["done" := Bool(true)];
  }
}

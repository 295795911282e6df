/**
 * The part of a Jackson `JsonNode` tree that the listing parser reads: node
 * kinds, `has`, `get` and `asText`. Numbers are kept as the text Jackson
 * renders for them; an object keeps the last value of a repeated key.
 */
module Json {
  import opened Wrappers

  datatype Json =
    | JNull
    | JBool(b: bool)
    | JNumber(text: string)
    | JString(s: string)
    | JArray(items: seq<Json>)
    | JObject(fields: map<string, Json>)

  /** `node.has(key)`: only an object has fields, and an explicit `null` value counts. */
  predicate Has(node: Json, key: string) {
    node.JObject? && key in node.fields
  }

  /** `node.get(key)`, where Java's `null` is `None`. */
  function Get(node: Json, key: string): (r: Option<Json>)
    ensures r.Some? <==> Has(node, key)
  {
    if Has(node, key) then Some(node.fields[key]) else None
  }

  /** `node.asText()`: a container renders as "", a null node as "null". */
  function AsText(node: Json): (r: string)
    ensures node.JString? ==> r == node.s
    ensures node.JArray? || node.JObject? ==> r == ""
  {
    match node
    case JNull => "null"
    case JBool(b) => if b then "true" else "false"
    case JNumber(t) => t
    case JString(s) => s
    case JArray(_) => ""
    case JObject(_) => ""
  }
}

/**
 The messages the router relays. On the wire a message is one JSON object;
 the router only looks at two of its fields.
 */
module Messages {
  import opened Wrappers

  /** Every other field of the JSON object; the router never inspects it. */
  type Payload = seq<char>

  /**
   `from` is the flat map of sender attributes the rules match against.
   `to` is the explicit destination: None when the field is absent or JSON
   `null` (both read as `None` through `message.get("to", None)`), and
   Some("") for an empty string, which is a name like any other.
   */
  datatype Message = Message(from: map<string, string>, to: Option<string>, payload: Payload)

  /** `d.get(k)` on a string map. */
  function Get(d: map<string, string>, k: string): (r: Option<string>)
    ensures r.Some? <==> k in d
    ensures r.Some? ==> r.value == d[k]
  {
    if k in d then Some(d[k]) else None
  }
}

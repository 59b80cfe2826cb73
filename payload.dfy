/**
 * The body of an HTTP write request as the back end sees it: a map from field
 * name to the decoded JSON value. A field the client did not send is `Absent`.
 */
module Payload {

  datatype Value = Absent | Null | Text(s: string) | Number(x: real)

  type Attributes = map<string, Value>

  function Get(payload: Attributes, field: string): (v: Value)
    ensures field !in payload ==> v == Absent
  {
    if field in payload then payload[field] else Absent
  }
}

/** The values strict JSON decoding produces, and the outcome of a stage that
    can fail with a message (a thrown `Error` in the source). */
module Json {

  /** A decoded JSON value (RFC 8259). Members of an object are kept in the
      order in which `for...in` enumerates them; a number carries the text
      that JavaScript's `String(n)` gives it. */
  datatype JValue =
    | JNull
    | JBool(b: bool)
    | JNumber(text: string)
    | JString(s: string)
    | JArray(items: seq<JValue>)
    | JObject(members: seq<(string, JValue)>)

  datatype Option<T> = None | Some(value: T)

  /** Either a value or the message of the error that was thrown. */
  datatype Result<T> = Ok(value: T) | Err(msg: string)

  /** `JSON.parse`: strict decoding of RFC 8259 text, which yields a value or
      fails with a message. It is a parameter of every member that decodes. */
  type Decoder = string -> Result<JValue>
}

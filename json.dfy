/**
  JSON values as the prompt metadata files hold them, and the foreign
  functions the updater uses on them (`json.load`, `json.dumps` and Python's
  `str`), which are taken as given and not modelled.
 */
module Json {
  import opened Wrappers

  /** A parsed JSON document. Numbers keep their literal text: the updater never computes with them. */
  datatype Json =
    | JNull
    | JBool(b: bool)
    | JNumber(literal: string)
    | JString(s: string)
    | JArray(items: seq<Json>)
    | JObject(fields: map<string, Json>)

  /**
    The serialisation functions the updater calls: `load` parses a file's text
    (None when the text is not JSON), `dumps` serialises a value, `str` is the
    text Python's formatting gives a non-string value.
   */
  datatype Codec = Codec(load: string -> Option<Json>, dumps: Json -> string, str: Json -> string)

  /** The text an f-string substitutes for a value: a string as it is, anything else through `str`. */
  function Format(v: Json, codec: Codec): string
  {
    if v.JString? then v.s else codec.str(v)
  }
}

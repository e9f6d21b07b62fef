/** JSON values as the Python `json` module and JavaScript's `JSON` see them, and an
    encoder/decoder pair that is left abstract: only its round-trip law is assumed of it. */
module JsonValue {
  import opened Base

  /** Numbers are kept integral: nothing in the model computes with a fractional JSON number. */
  datatype Json =
    | JNull
    | JBool(b: bool)
    | JNum(n: int)
    | JStr(s: string)
    | JArr(items: seq<Json>)
    | JObj(fields: seq<(string, Json)>)

  /** `json.dumps` / `json.loads` (or `JSON.stringify` / `JSON.parse`); `loads` yields None
      where the real decoder raises. */
  datatype JsonCodec = JsonCodec(dumps: Json -> string, loads: string -> Option<Json>)

  /** Decoding an encoding gives the value back, and no encoding is the empty string
      (the shortest JSON text is one character long). */
  ghost predicate Lawful(c: JsonCodec)
  {
    forall j :: c.loads(c.dumps(j)) == Some(j) && c.dumps(j) != []
  }

  /** The value stored under `key` in an object; with duplicate keys the last one wins, as in
      both `json.loads` and `JSON.parse`. */
  function Get(fields: seq<(string, Json)>, key: string): (r: Option<Json>)
    ensures r.Some? ==> (key, r.value) in fields
    ensures r.None? <==> forall i | 0 <= i < |fields| :: fields[i].0 != key
  {
    if fields == [] then None
    else if fields[|fields| - 1].0 == key then Some(fields[|fields| - 1].1)
    else Get(fields[..|fields| - 1], key)
  }
}

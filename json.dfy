/** The untyped `data` payload of a record: any JSON value, as a decoder
    would hand it over. The store never inspects it. */
module Json {

  datatype Value =
    | Null
    | Bool(b: bool)
    | Number(n: real)
    | String(s: string)
    | Array(items: seq<Value>)
    | Object(members: map<string, Value>)
}

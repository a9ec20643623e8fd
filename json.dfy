/** The in-memory JSON values the replicas work on (jsonxx's Value, Object and
    Array). Objects are maps: the replicas only ever add keys with `<<`, which
    replaces an existing value, and nothing they compute depends on key order. */
module Json {

  datatype Json =
    | JNull
    | JBool(b: bool)
    | JNumber(n: int)
    | JString(s: string)
    | JArray(items: seq<Json>)
    | JObject(fields: map<string, Json>)

  /** A jsonxx::Object: keys to values. */
  type Obj = map<string, Json>

  datatype Option<T> = None | Some(value: T)

  /** What a replica sends back: a fixed text, or a JSON value it serialises
      with `.json()` before copying it out. */
  datatype Reply = Text(text: string) | Body(json: Json)

  /** The characters of a reply, given the serialiser jsonxx's `.json()`
      stands for. */
  function ReplyText(r: Reply, toText: Json -> string): string {
    match r
    case Text(s) => s
    case Body(j) => toText(j)
  }

  /** `o.has<String>(key)`: the key is present and holds a string. */
  predicate HasString(o: Obj, key: string) {
    key in o && o[key].JString?
  }

  /** `o.has<Object>(key)`. */
  predicate HasObject(o: Obj, key: string) {
    key in o && o[key].JObject?
  }

  /** `o.has<Array>(key)`. */
  predicate HasArray(o: Obj, key: string) {
    key in o && o[key].JArray?
  }

  /** `a.has<String>(i)` on a jsonxx::Array: index in range and a string there. */
  predicate HasStringAt(a: seq<Json>, i: int) {
    0 <= i < |a| && a[i].JString?
  }
}

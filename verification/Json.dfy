/** JSON values as the configuration and chat blobs hold them. */
module Json {
  import opened Prelude

  datatype Json =
    | Null
    | Bool(b: bool)
    | Num(n: int)
    | Text(s: string)
    | List(items: seq<Json>)
    | Dict(m: map<string, Json>)

  type Path = seq<string>

  /** The value at the end of a path of dictionary keys. */
  function At(j: Json, path: Path): Option<Json>
  {
    if path == [] then Some(j)
    else if j.Dict? && path[0] in j.m then At(j.m[path[0]], path[1..])
    else None
  }

  predicate DictAt(j: Json, path: Path)
  {
    At(j, path).Some? && At(j, path).value.Dict?
  }
}

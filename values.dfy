/** Configuration data as the store passes it around. */
module ConfigValues {

  /** An optional value: `None` stands for the FALSE a store returns for a missing entry. */
  datatype Option<T> = None | Some(value: T)

  /** A structured configuration value: a scalar, a list, or a nested mapping. */
  datatype Value =
    | Scalar(text: string)
    | List(items: seq<Value>)
    | Dict(fields: map<string, Value>)

  /** The data of one configuration entry. The empty mapping is the "falsy" data: nothing to persist. */
  type Data = map<string, Value>

  /** Name of the default collection. */
  const DefaultCollection: string := ""
}

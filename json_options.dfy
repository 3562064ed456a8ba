/** The two serializer options the codec consults. */
module JsonOptions {
  import opened Wrappers

  datatype SerializerOptions = SerializerOptions(
    ignoreNullValues: bool,
    namingPolicy: Option<string -> string>)   // PropertyNamingPolicy; None is null

  /** The written name of a member: converted by the naming policy when one is set. */
  function ConvertPropertyName(options: SerializerOptions, name: string): string
  {
    if options.namingPolicy.Some? then options.namingPolicy.value(name) else name
  }

  /** Options under which a written member name is the name itself. */
  predicate KeepsNames(options: SerializerOptions)
  {
    options.namingPolicy.None?
  }
}

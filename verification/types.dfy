/** The records the client works with: toggles, evaluation contexts,
    configuration, request headers and URLs. */
module Types {
  import opened Wrappers

  /** A feature toggle as the service sends it. `variant` is an ordered
      string-to-string record. */
  datatype Toggle = Toggle(
    name: string,
    enabled: bool,
    variant: seq<(string, string)>,
    impressionData: bool)

  /** A context key that carries a plain string. The key `properties` is
      reserved for the nested property record, so it is excluded here. */
  type ScalarKey = k: string | k != "properties" witness "appName"

  /** One entry of the nested `properties` record; a `None` value stands for
      an entry that is `undefined` or `null`. */
  datatype Property = Property(key: string, value: Option<string>)

  /** One own enumerable entry of a context object. `Scalar` covers
      `appName`, `environment`, `userId`, `sessionId` and any other string
      field, array-index keys such as `"0"` included; `Properties` is the
      entry with key `properties`. */
  datatype Field =
    | Scalar(key: ScalarKey, value: Option<string>)
    | Properties(entries: Option<seq<Property>>)
  {
    /** The entry's key in the context object. */
    function Key(): string {
      if Scalar? then key else "properties"
    }
  }

  /** A context object as its ordered entries. The client's stored context
      is kept in insertion order, and `Objects.OwnKeys` gives the order in
      which it is enumerated. A context or `properties` record the caller
      hands over is given in its own enumeration order, which is all that
      object spread and `Object.entries` see of it. */
  type Context = seq<Field>

  /** One query parameter, unencoded. */
  datatype Param = Param(key: string, value: string)

  /** A parsed URL: everything before the query, kept opaque, and the ordered
      query parameters. */
  datatype Url = Url(base: string, query: seq<Param>)

  /** The `url` option: a string still to be parsed, or an already parsed URL. */
  datatype UrlArg = Text(text: string) | Parsed(url: Url)

  /** The configuration object handed to the constructor; `None` marks a
      property that is `undefined` or `null`. */
  datatype Config = Config(
    url: Option<UrlArg>,
    clientKey: Option<string>,
    appName: Option<string>,
    environment: Option<string>,
    context: Option<Context>)

  /** The request headers; `If-None-Match` is optional. */
  datatype Headers = Headers(
    authorization: string,
    accept: string,
    contentType: string,
    ifNoneMatch: Option<string>)

  /** What a successful fetch reports. */
  datatype FetchStatus = Updated | Unchanged
}

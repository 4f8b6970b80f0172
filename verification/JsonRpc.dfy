/** JSON-RPC messages as internal/core/rpc/jsonrpc.go reads them. */
module JsonRpc {
  import opened Wrappers
  import opened JsonText

  /** A decoded JSON value. A number carries the text Go prints for it; an array or object carries
      its JSON text and its printed text. */
  datatype Json =
    | Null
    | Bool(b: bool)
    | Text(s: string)
    | Number(printed: string)
    | Composite(json: string, text: string)

  /** What `fmt.Sprint` prints. */
  function Sprint(v: Json): string {
    match v
    case Null => "<nil>"
    case Bool(b) => if b then "true" else "false"
    case Text(s) => s
    case Number(printed) => printed
    case Composite(_, text) => text
  }

  /** What an endpoint is sent. */
  datatype Sealed = Sealed(id: string, version: string, methodName: string, params: Items)

  /** A request; `params` is nothing when the member is missing or null. */
  datatype Request = Request(id: Json, version: string, methodName: string, params: Option<Tree>) {
    /** `jsonrpc.ID`: null prints as "null" here, and as "<nil>" everywhere `fmt.Sprint` is used. */
    function ID(): string {
      if id == Null then "null" else Sprint(id)
    }

    /** `jsonrpc.Params`: a lone value counts as a list of one. */
    function Params(): Items {
      match params
      case None => NoItem
      case Some(Array(items)) => items
      case Some(v) => Item(v, NoItem)
    }

    /** The params as they are encoded for a cache key. */
    function ParamsText(): JsonText.Params {
      match params
      case None => ""
      case Some(v) => PrintedIsJson(v); Print(v)
    }

    function Seal(): Sealed {
      Sealed(ID(), version, methodName, Params())
    }
  }

  /** One raw result of an endpoint. */
  datatype Reply = Reply(id: Json, result: Json, error: Json)
}

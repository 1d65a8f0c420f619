/** What a route handler sees and produces: the inbound body, the at most one
    outbound chat-completion request it issues, the reply to that request and
    the response it returns as a status and a payload. */
module Http {
  import opened Wrappers
  import opened Json

  /** `await request.json()`: rejects on a body that is not JSON, otherwise yields a value. */
  datatype Body = Malformed | Parsed(root: Value)

  /** A response: status 200 with a payload, or an error status with the
      `error` message the handler puts in its JSON body. */
  datatype Response<T> = Ok(value: T) | Err(status: int, message: string) {
    function Status(): int {
      if Ok? then 200 else status
    }
  }

  /** The outbound request to the completion endpoint: the system instruction,
      the user message if there is one, and whether a JSON object is demanded
      as the reply format. Model name and temperature are the same constants
      in every handler and are not carried. */
  datatype ChatCall = ChatCall(system: string, user: Option<Value>, jsonObject: bool)

  /** One handled request: the outbound call made (`None`: no call) and the response. */
  datatype Exchange<T> = Exchange(call: Option<ChatCall>, response: Response<T>)

  /** The first completion's content as the translate and detect handlers read
      it; `Unavailable` stands for every way the call or that read throws. */
  datatype Reply = Unavailable | Content(text: string)

  const KeyNotConfigured := "API key not configured"
}

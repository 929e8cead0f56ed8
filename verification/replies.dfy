/** What a handler ends with. */
module Replies {
  import opened Tokens

  /** The JSON body of a response. */
  datatype Body =
    | Plain(message: string)
    | Detailed(message: string, detail: string)
    | WithEmail(message: string, email: string)
    | WithToken(message: string, token: Jwt)

  /**
   * A response with a status code and body; or an exception thrown
   * synchronously out of the handler, which the web framework answers on
   * its own; or nothing at all, when the handler's promise is rejected with
   * nobody to catch it or a callback is never made.
   */
  datatype Reply = Send(status: int, body: Body) | Threw | Silent
}

/** The message vocabulary the initialize handshake uses: the three kinds of
    LSP message, request identifiers, opaque parameter payloads and the
    protocol error the handshake reports. The crate's own msg and error
    modules are not part of this model; these types are defined from their
    uses in the handshake. */
module Msg {

  datatype Option<+T> = None | Some(value: T)

  /** Success with a value, or failure with an error. */
  datatype Result<+R, +E> = Ok(value: R) | Err(error: E)

  /** A request identifier: built from an integer (as the handshake does)
      or from a string. */
  datatype RequestId = Num(n: int) | Str(s: string)

  /** Parameter and result payloads are opaque to this layer. The two
      payloads the handshake builds itself are named: the fixed initialize
      parameters (no process id, no root, default client capabilities, every
      other optional field absent) and the empty initialized parameters.
      Anything else is carried as its serialised text. */
  datatype Params = InitializeParams | InitializedParams | Json(text: string)

  /** The error object a server may put in a response. */
  datatype ResponseError = ResponseError(code: int, message: string, data: Option<Params>)

  datatype Message =
    | Request(id: RequestId, methodName: string, params: Params)
    | Response(id: RequestId, result: Option<Params>, error: Option<ResponseError>)
    | Notification(methodName: string, params: Params)

  /** The protocol error of the handshake; it carries the message that was
      received instead of a response. */
  datatype ProtocolError =
    | UnexpectedNotification(received: Message)
    | UnexpectedMessage(received: Message)

  predicate IsInitializeRequest(m: Message)
  {
    m.Request? && m.methodName == "initialize"
  }

  predicate IsInitializedNotification(m: Message)
  {
    m.Notification? && m.methodName == "initialized"
  }
}

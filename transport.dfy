/**
 * The WebSocket client (`Meta.Net.NativeWebSocket.WebSocket`) as the core
 * sees it: a state, whether the message handler is subscribed, and the
 * calls the core makes on it. The transport itself is not modelled.
 */
module Transport {
  import opened Common

  /** `WebSocketState`. */
  datatype SocketState = Connecting | Open | Closing | Closed

  /**
   * One socket object: the URL it was made for, its state, and whether
   * `ImageSender.OnMessageReceived` is subscribed to its `OnMessage` event.
   */
  datatype WebSocket = WebSocket(url: string, state: SocketState, messageHandlerRegistered: bool)

  /** The calls the core makes on a socket, in the order it makes them. */
  datatype SocketCall =
    | ConnectCall(url: string)
    | SendBinary(bytes: seq<uint8>)
    | SendText(text: string)
    | RemoveMessageHandler
    | CloseCall

  /** `websocket != null && websocket.State == WebSocketState.Open`. */
  predicate IsOpen(websocket: Option<WebSocket>)
  {
    websocket.Some? && websocket.value.state == Open
  }
}

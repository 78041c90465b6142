/**
 * What the hub's request handling does to the outside world. The network
 * layer (Hub_Net_sendMessage, Hub_Net_markClientClosed,
 * Hub_Net_broadcastNotification) and the hub's log sink are not part of this
 * model; each call to them is recorded as one effect, in call order.
 */
module HubNet {
  import opened Comm

  datatype Effect =
      /** Hub_Net_sendMessage to the client on socket sock. */
    | Send(sock: int, message: Message)
      /** Hub_Net_markClientClosed for the client on socket sock. */
    | MarkClosed(sock: int)
      /** Hub_Net_broadcastNotification. */
    | Broadcast(message: Message)
      /** Hub_Logging_log(level, text). */
    | HubLog(level: int, text: string)
      /** Hub_Logging_logWithName(app, level, text). */
    | LogWithName(app: string, level: int, text: string)
}

/**
 Shared vocabulary of the chat-room client: the messages shown in a room, the
 frames exchanged over the socket, the events a chat-room component reacts to,
 and the component state `(messages, current_message)` that both variants of
 the component keep.
 */
module Chat {

  /** The conventional Some/None datatype; `None` plays the part of JavaScript's `undefined`. */
  datatype Option<+T> = None | Some(value: T)

  /** One chat message as the server delivers it, `{id, text}`. */
  datatype Message = Message(id: int, text: string)

  /** An inbound socket frame, already decoded from JSON: `{message: {id, text}}`. */
  datatype InboundFrame = InboundFrame(message: Message)

  /** An outbound socket frame, before JSON encoding: `{message: text}`. */
  datatype OutboundFrame = OutboundFrame(message: string)

  /** The socket's `readyState` at the moment a submit calls `send`:
      still connecting, open, or closing/closed. */
  datatype SocketState = Connecting | Open | Closed

  /** The events every chat-room component handles: an input change,
      a form submit (with the state the socket is in at that moment),
      and a frame arriving on the socket. */
  datatype Event =
    | Change(value: string)
    | Submit(socket: SocketState)
    | Receive(frame: InboundFrame)

  /** What `send` does with a frame: a socket still connecting throws
      `InvalidStateError`, an open one transmits the frame, and a closing or
      closed one discards it without an error. */
  datatype Delivery = Thrown | Transmitted(frame: OutboundFrame) | Discarded

  /** `sendSocketMessage`: the frame `{message}` handed to the socket's `send`. */
  function SendSocketMessage(socket: SocketState, message: string): (d: Delivery)
    ensures d.Thrown? <==> socket.Connecting?
    ensures d.Transmitted? <==> socket.Open?
    ensures d.Transmitted? ==> d.frame.message == message
  {
    match socket
    case Connecting => Thrown
    case Open => Transmitted(OutboundFrame(message))
    case Closed => Discarded
  }

  /** Component state: the message log and the draft in the input field. */
  datatype State = State(messages: seq<Message>, draft: string)

  /** The result of handling one event: the next state and at most one frame
      transmitted. */
  datatype Output = Output(state: State, sent: Option<OutboundFrame>)

  /** The result of handling a sequence of events: the final state and
      every frame transmitted, in order. */
  datatype Trace = Trace(state: State, sent: seq<OutboundFrame>)

  /** The messages carried by the `Receive` events of `es`, in arrival order. */
  function Received(es: seq<Event>): (ms: seq<Message>)
    ensures |ms| <= |es|
    ensures forall i :: 0 <= i < |es| && es[i].Receive? ==> es[i].frame.message in ms
    ensures forall m :: m in ms ==> Receive(InboundFrame(m)) in es
  {
    if es == [] then []
    else
      var last := es[|es| - 1];
      Received(es[..|es| - 1]) + (if last.Receive? then [last.frame.message] else [])
  }

  /** The props a list component is given, by name. */
  type Props = map<string, seq<Message>>

  /** What a message list (`MessagesList`, `MessageList`) renders: one
      paragraph per item of its `content` prop. When no `content` prop is
      given, `this.state.content` is `undefined` and `undefined.map` throws
      during render; `None` stands for that crash. */
  function ListRender(props: Props): (shown: Option<seq<Message>>)
    ensures shown.Some? <==> "content" in props
    ensures shown.Some? ==> shown.value == props["content"]
  {
    if "content" in props then Some(props["content"]) else None
  }

  /** Number of `Submit` events in `es`. */
  function Submits(es: seq<Event>): (n: nat)
    ensures n <= |es|
  {
    if es == [] then 0
    else Submits(es[..|es| - 1]) + (if es[|es| - 1].Submit? then 1 else 0)
  }
}

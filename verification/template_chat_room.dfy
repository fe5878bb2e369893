/**
 The chat-room component of the server-rendered page. It is constructed with
 the room's history as its `messages` prop, appends every frame that arrives
 on the socket, keeps the input field's text as the draft, and on submit sends
 the draft (when it is not empty) and clears it. Each handler is modelled as
 a pure step from the state to the next state and at most one outbound frame.
 */
module TemplateChatRoom {
  import opened Chat

  /** Constructor: the log is the `messages` prop and the draft is empty. */
  function Init(messages: seq<Message>): (s: State)
    ensures s.messages == messages && s.draft == ""
  {
    State(messages, "")
  }

  /** One handler run: `handleData`, `handleChange` or `handleSubmin`.
      `handleSubmin` calls `send` before it resets the input, so when the
      socket is still connecting the exception skips the reset and the draft
      survives; a closing or closed socket drops the frame and the draft. */
  function Step(s: State, e: Event): (o: Output)
    ensures e.Receive? ==>
              && s.messages < o.state.messages
              && |o.state.messages| == |s.messages| + 1
              && o.state.messages[|s.messages|] == e.frame.message
              && o.state.draft == s.draft
              && o.sent.None?
    ensures e.Change? ==>
              o.state.messages == s.messages && o.state.draft == e.value && o.sent.None?
    ensures e.Submit? ==>
              && o.state.messages == s.messages
              && o.state.draft == (if e.socket.Connecting? then s.draft else "")
              && (o.sent.Some? <==> s.draft != "" && e.socket.Open?)
              && (o.sent.Some? ==> o.sent.value.message == s.draft)
  {
    match e
    case Receive(frame) =>
      Output(s.(messages := s.messages + [frame.message]), None)
    case Change(value) =>
      Output(s.(draft := value), None)
    case Submit(socket) =>
      if s.draft == "" then Output(s.(draft := ""), None)
      else match SendSocketMessage(socket, s.draft)
        case Thrown => Output(s, None)
        case Transmitted(frame) => Output(s.(draft := ""), Some(frame))
        case Discarded => Output(s.(draft := ""), None)
  }

  /** The handlers run one after another; the trace collects the frames sent. */
  function Run(s: State, es: seq<Event>): (t: Trace)
    ensures s.messages <= t.state.messages
    ensures |t.sent| <= Submits(es)
    ensures forall i :: 0 <= i < |t.sent| ==> t.sent[i].message != ""
  {
    if es == [] then Trace(s, [])
    else
      var t := Run(s, es[..|es| - 1]);
      var o := Step(t.state, es[|es| - 1]);
      Trace(o.state, t.sent + (if o.sent.Some? then [o.sent.value] else []))
  }

  /** The props handed to `MessagesList`: the log as `content`. */
  function ListProps(s: State): Props {
    map["content" := s.messages]
  }

  /** After any run the log is the starting log followed by every received
      message in arrival order: nothing is dropped, merged or reordered, and
      nothing enters the log except through a received frame. */
  lemma {:induction false} RunLog(s: State, es: seq<Event>)
    ensures Run(s, es).state.messages == s.messages + Received(es)
  {
    if es != [] {
      RunLog(s, es[..|es| - 1]);
    }
  }

  /** The list shows the history the component was built with, then every
      received message; the list is handed the state's log itself. */
  lemma ListShowsHistoryThenReceived(history: seq<Message>, es: seq<Event>)
    ensures ListRender(ListProps(Run(Init(history), es).state)) == Some(history + Received(es))
  {
    RunLog(Init(history), es);
  }

  /** The same frame received twice is shown twice: there is no de-duplication by id. */
  lemma RepeatedFrameAppearsTwice(s: State, f: InboundFrame)
    ensures Run(s, [Receive(f), Receive(f)]).state.messages == s.messages + [f.message, f.message]
  {
    RunLog(s, [Receive(f), Receive(f)]);
    assert [Receive(f), Receive(f)][..1] == [Receive(f)];
  }

  /** The draft left after a run: the value of the last change, or empty when a
      submit on a socket that was not connecting came after it, or the starting
      draft when neither happened. */
  function LastInput(draft: string, es: seq<Event>): string
    decreases |es|
  {
    if es == [] then draft
    else match es[|es| - 1]
      case Change(value) => value
      case Submit(socket) => if socket.Connecting? then LastInput(draft, es[..|es| - 1]) else ""
      case Receive(_) => LastInput(draft, es[..|es| - 1])
  }

  /** The draft is whatever the user last typed, unless a submit cleared it;
      incoming frames and submits that threw never touch it. */
  lemma {:induction false} DraftIsLastInput(s: State, es: seq<Event>)
    ensures Run(s, es).state.draft == LastInput(s.draft, es)
  {
    if es != [] {
      DraftIsLastInput(s, es[..|es| - 1]);
    }
  }

  /** A submit on an open socket transmits one frame carrying the text the
      user last typed, and none when that text is empty; on a socket that is
      not open it transmits nothing. Every earlier frame is kept as it was. */
  lemma SubmitSendsLastInput(s: State, es: seq<Event>, socket: SocketState)
    ensures var d := LastInput(s.draft, es);
            Run(s, es + [Submit(socket)]).sent
            == Run(s, es).sent + (if d != "" && socket.Open? then [OutboundFrame(d)] else [])
  {
    assert (es + [Submit(socket)])[..|es|] == es;
    DraftIsLastInput(s, es);
  }

  /** Typing a non-empty text and submitting on an open socket sends exactly
      that text once and leaves the log as it was; when the server echoes it
      back it is appended. */
  lemma TypeSubmitEcho(s: State, text: string, id: int)
    requires text != ""
    ensures var t := Run(s, [Change(text), Submit(Open)]);
            t.sent == [OutboundFrame(text)] && t.state == State(s.messages, "")
    ensures var t := Run(s, [Change(text), Submit(Open), Receive(InboundFrame(Message(id, text)))]);
            t.sent == [OutboundFrame(text)] && t.state == State(s.messages + [Message(id, text)], "")
  {
    var es := [Change(text), Submit(Open), Receive(InboundFrame(Message(id, text)))];
    assert es[..2] == [Change(text), Submit(Open)];
    assert es[..2][..1] == [Change(text)];
    assert es[..1] == [Change(text)];
    assert Run(s, [Change(text)]) == Trace(s.(draft := text), []);
    assert Run(s, es[..2]) == Trace(State(s.messages, ""), [OutboundFrame(text)]);
  }

  /** A submit while the socket is still connecting loses nothing: the draft
      stays in the input, and a submit once the socket is open sends it. */
  lemma RetryAfterConnecting(s: State, text: string)
    requires text != ""
    ensures Run(s, [Change(text), Submit(Connecting)]) == Trace(s.(draft := text), [])
    ensures Run(s, [Change(text), Submit(Connecting), Submit(Open)])
         == Trace(s.(draft := ""), [OutboundFrame(text)])
  {
    var es := [Change(text), Submit(Connecting), Submit(Open)];
    assert es[..2] == [Change(text), Submit(Connecting)];
    assert es[..2][..1] == [Change(text)];
    assert Run(s, [Change(text)]) == Trace(s.(draft := text), []);
  }

  /** A submit on a closing or closed socket empties the input but transmits
      nothing: the typed text is lost without an error. */
  lemma SubmitOnClosedLosesDraft(s: State, text: string)
    ensures Run(s, [Change(text), Submit(Closed)]) == Trace(s.(draft := ""), [])
  {
    assert [Change(text), Submit(Closed)][..1] == [Change(text)];
    assert Run(s, [Change(text)]) == Trace(s.(draft := text), []);
  }

  /** After a submit on an open socket, a second submit without typing in
      between sends nothing more, whatever state the socket is then in. */
  lemma SubmitTwiceSendsOnce(s: State, socket: SocketState)
    ensures Run(s, [Submit(Open), Submit(socket)]).sent == (if s.draft == "" then [] else [OutboundFrame(s.draft)])
    ensures Run(s, [Submit(Open), Submit(socket)]).state == s.(draft := "")
  {
    assert [Submit(Open), Submit(socket)][..1] == [Submit(Open)];
    var sent := if s.draft == "" then [] else [OutboundFrame(s.draft)];
    assert Run(s, [Submit(Open)]) == Trace(s.(draft := ""), sent);
  }
}

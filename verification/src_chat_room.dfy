/**
 The chat-room component of the single-page client. It starts with an empty
 log, requests the room's history when mounted and, when the response comes,
 replaces the whole log with it. Socket frames, input changes and submits are
 handled as in the server-rendered page.
 */
module SrcChatRoom {
  import opened Chat
  import RoomPath
  import Urls

  /** What this component reacts to: one of the shared handlers, or the
      completion of the history request with the fetched list. */
  datatype RoomEvent =
    | Handle(event: Event)
    | HistoryLoaded(data: seq<Message>)

  /** Constructor: empty log, empty draft. */
  function Init(): (s: State)
    ensures s.messages == [] && s.draft == ""
  {
    State([], "")
  }

  /** The history request of `getMessages`, for the room taken from the route. */
  function HistoryRequest(room: string): (url: string)
    ensures Urls.ParseHistoryPath(url) == Some(room)
  {
    Urls.HistoryPathRoundTrip(room);
    Urls.HistoryPath(room)
  }

  /** One handler run: the history completion, `handleData`, `handleChange`
      or `handleSubmin`. As in the server-rendered page, `send` on a socket
      still connecting throws before the input is reset. */
  function Step(s: State, e: RoomEvent): (o: Output)
    ensures e.HistoryLoaded? ==>
              o.state.messages == e.data && o.state.draft == s.draft && o.sent.None?
    ensures e.Handle? && e.event.Receive? ==>
              && s.messages < o.state.messages
              && |o.state.messages| == |s.messages| + 1
              && o.state.messages[|s.messages|] == e.event.frame.message
              && o.state.draft == s.draft
              && o.sent.None?
    ensures e.Handle? && e.event.Change? ==>
              o.state.messages == s.messages && o.state.draft == e.event.value && o.sent.None?
    ensures e.Handle? && e.event.Submit? ==>
              && o.state.messages == s.messages
              && o.state.draft == (if e.event.socket.Connecting? then s.draft else "")
              && (o.sent.Some? <==> s.draft != "" && e.event.socket.Open?)
              && (o.sent.Some? ==> o.sent.value.message == s.draft)
  {
    match e
    case HistoryLoaded(data) =>
      Output(s.(messages := data), None)
    case Handle(Receive(frame)) =>
      Output(s.(messages := s.messages + [frame.message]), None)
    case Handle(Change(value)) =>
      Output(s.(draft := value), None)
    case Handle(Submit(socket)) =>
      if s.draft == "" then Output(s.(draft := ""), None)
      else match SendSocketMessage(socket, s.draft)
        case Thrown => Output(s, None)
        case Transmitted(frame) => Output(s.(draft := ""), Some(frame))
        case Discarded => Output(s.(draft := ""), None)
  }

  /** No history completion among `es`. */
  predicate NoHistory(es: seq<RoomEvent>) {
    forall i :: 0 <= i < |es| ==> es[i].Handle?
  }

  /** The handlers run one after another; the trace collects the frames sent.
      Without a history completion the old log stays a prefix of the new one. */
  function Run(s: State, es: seq<RoomEvent>): (t: Trace)
    ensures NoHistory(es) ==> s.messages <= t.state.messages
    ensures forall i :: 0 <= i < |t.sent| ==> t.sent[i].message != ""
  {
    if es == [] then Trace(s, [])
    else
      var t := Run(s, es[..|es| - 1]);
      var o := Step(t.state, es[|es| - 1]);
      Trace(o.state, t.sent + (if o.sent.Some? then [o.sent.value] else []))
  }

  /** The shared events as events of this component. */
  function AsRoomEvents(es: seq<Event>): (rs: seq<RoomEvent>)
    ensures |rs| == |es| && NoHistory(rs)
    ensures forall i :: 0 <= i < |es| ==> rs[i] == Handle(es[i])
  {
    seq(|es|, i requires 0 <= i < |es| => Handle(es[i]))
  }

  /** The shared-handler events of `es`, in order. */
  function Handled(es: seq<RoomEvent>): (hs: seq<Event>)
    ensures |hs| <= |es|
  {
    if es == [] then []
    else
      var last := es[|es| - 1];
      Handled(es[..|es| - 1]) + (if last.Handle? then [last.event] else [])
  }

  /** `Handled` undoes `AsRoomEvents`. */
  lemma {:induction false} HandledAsRoomEvents(es: seq<Event>)
    ensures Handled(AsRoomEvents(es)) == es
  {
    if es != [] {
      var init := es[..|es| - 1];
      assert AsRoomEvents(es)[..|es| - 1] == AsRoomEvents(init);
      HandledAsRoomEvents(init);
    }
  }

  /** A handled event adds its received message, if any, at the end. */
  lemma ReceivedHandledSnoc(es: seq<RoomEvent>, e: Event)
    ensures Received(Handled(es + [Handle(e)]))
         == Received(Handled(es)) + (if e.Receive? then [e.frame.message] else [])
  {
    var es' := es + [Handle(e)];
    assert es'[..|es|] == es;
    var hs := Handled(es) + [e];
    assert Handled(es') == hs;
    assert hs[..|hs| - 1] == Handled(es);
  }

  /** Running `a` then `b` is running `a + b`: states chain and frames concatenate. */
  lemma {:induction false} RunAppend(s: State, a: seq<RoomEvent>, b: seq<RoomEvent>)
    ensures var ta := Run(s, a);
            var tb := Run(ta.state, b);
            Run(s, a + b) == Trace(tb.state, ta.sent + tb.sent)
    decreases |b|
  {
    if b == [] {
      assert a + b == a;
    } else {
      var b' := b[..|b| - 1];
      assert (a + b)[..|a + b| - 1] == a + b';
      assert (a + b)[|a + b| - 1] == b[|b| - 1];
      RunAppend(s, a, b');
    }
  }

  /** Before any history completion the log is the starting log followed by
      every received message in arrival order. */
  lemma {:induction false} LiveOnlyLog(s: State, es: seq<RoomEvent>)
    requires NoHistory(es)
    ensures Run(s, es).state.messages == s.messages + Received(Handled(es))
  {
    if es != [] {
      var init := es[..|es| - 1];
      var last := es[|es| - 1];
      assert es == init + [last];
      LiveOnlyLog(s, init);
      ReceivedHandledSnoc(init, last.event);
    }
  }

  /** A history completion overwrites the log with exactly the fetched list. */
  lemma HistoryOverwrites(s: State, es: seq<RoomEvent>, data: seq<Message>)
    ensures Run(s, es + [HistoryLoaded(data)]).state.messages == data
  {
    assert (es + [HistoryLoaded(data)])[..|es|] == es;
  }

  /** After the last history completion the log is that history followed by
      every message received afterwards; whatever was in the log before,
      including live messages, is gone. */
  lemma HistoryThenLive(s: State, before: seq<RoomEvent>, data: seq<Message>, after: seq<RoomEvent>)
    requires NoHistory(after)
    ensures Run(s, before + [HistoryLoaded(data)] + after).state.messages
            == data + Received(Handled(after))
  {
    var a := before + [HistoryLoaded(data)];
    HistoryOverwrites(s, before, data);
    RunAppend(s, a, after);
    LiveOnlyLog(Run(s, a).state, after);
  }

  /** A message that arrives live before the history response is lost unless
      the history itself contains it: the response replaces the log. */
  lemma LiveBeforeHistoryIsDropped(f: InboundFrame, data: seq<Message>)
    ensures Run(Init(), [Handle(Receive(f)), HistoryLoaded(data)]).state.messages == data
  {
    HistoryOverwrites(Init(), [Handle(Receive(f))], data);
    assert [Handle(Receive(f))] + [HistoryLoaded(data)] == [Handle(Receive(f)), HistoryLoaded(data)];
  }

  /** The props handed to `MessageList` as written: the log under the name
      `messages`, while `MessageList` reads `content`. */
  function ListPropsAsWritten(s: State): (props: Props)
    ensures "messages" in props && props["messages"] == s.messages
    ensures "content" !in props
  {
    map["messages" := s.messages]
  }

  /** The props as evidently intended: the log as `content`. */
  function ListProps(s: State): (props: Props)
    ensures "content" in props && props["content"] == s.messages
  {
    map["content" := s.messages]
  }

  /** As written the list renders nothing in any state, starting with the
      first render: `undefined.map` throws, React unmounts the tree, and the
      component never reaches `componentDidMount`. */
  lemma ListAsWrittenNeverRenders(s: State)
    ensures ListRender(ListPropsAsWritten(s)) == None
    ensures ListRender(ListPropsAsWritten(Init())) == None
  {
  }

  /** Corrected: after the history arrives the list shows it, followed by
      every message received afterwards. */
  lemma ListShowsHistoryThenLive(data: seq<Message>, es: seq<Event>)
    ensures ListRender(ListProps(Run(Init(), [HistoryLoaded(data)] + AsRoomEvents(es)).state))
         == Some(data + Received(es))
  {
    HistoryThenLive(Init(), [], data, AsRoomEvents(es));
    assert [] + [HistoryLoaded(data)] + AsRoomEvents(es) == [HistoryLoaded(data)] + AsRoomEvents(es);
    HandledAsRoomEvents(es);
  }

  /** The socket path as written: it is built from `this.room`, a field that is
      never set, so JavaScript renders it as `undefined` whatever the room is. */
  function SocketPathAsWritten(room: string): (p: string)
    ensures p == "/ws/undefined/"
  {
    "/ws/" + Urls.RoomText(None) + "/"
  }

  /** The socket path with the room from the route, as evidently intended. */
  function RoomSocketPath(room: string): (p: string)
    ensures |p| == |room| + 5
    ensures p[..4] == "/ws/" && p[4..|p| - 1] == room && p[|p| - 1] == '/'
  {
    "/ws/" + room + "/"
  }

  /** As written, every room connects to the channel whose last path segment
      is `undefined`; for a room called `lobby` that is not the room. */
  lemma SocketPathAsWrittenIgnoresRoom(room: string)
    ensures RoomPath.ExtractRoom(SocketPathAsWritten(room)) == Some("undefined")
    ensures RoomPath.ExtractRoom(SocketPathAsWritten("lobby")) != Some("lobby")
  {
    var p := "/ws/" + "undefined";
    assert RoomPath.NoSlash("undefined");
    RoomPath.AppendedSegmentIsRoom("/ws", "undefined");
    assert "/ws" + "/" + "undefined" == p;
    RoomPath.TrailingSlashIgnored(p, p + "/");
    assert SocketPathAsWritten(room) == p + "/";
    assert SocketPathAsWritten("lobby") == p + "/";
  }

  /** Corrected: the channel's last path segment is the room itself, for every
      room name the route can produce (non-empty, without a slash). */
  lemma SocketPathNamesRoom(room: string)
    requires room != "" && RoomPath.NoSlash(room)
    ensures RoomPath.ExtractRoom(RoomSocketPath(room)) == Some(room)
  {
    var p := "/ws/" + room;
    RoomPath.AppendedSegmentIsRoom("/ws", room);
    assert "/ws" + "/" + room == p;
    RoomPath.TrailingSlashIgnored(p, p + "/");
    assert RoomSocketPath(room) == p + "/";
  }
}

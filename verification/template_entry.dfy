/**
 The entry point of the server-rendered room page. On load it derives the
 socket URL from the raw pathname, extracts the room from the pathname and
 requests that room's history; only when the response arrives does it render
 the chat-room component, with the response as its initial messages.
 */
module TemplateEntry {
  import opened Chat
  import RoomPath
  import Urls
  import TemplateChatRoom

  /** The page: the derived addresses, and the chat-room component once rendered. */
  datatype Page = Page(
    socketUrl: string,
    room: Option<string>,
    historyRequest: string,
    chatRoom: Option<State>)

  /** What reaches the page: the history response, or an event of the
      rendered chat room (a socket frame, an input change, a submit). */
  datatype PageEvent =
    | HistoryResponse(result: seq<Message>)
    | Room(event: Event)

  datatype PageOutput = PageOutput(page: Page, sent: Option<OutboundFrame>)

  datatype PageTrace = PageTrace(page: Page, sent: seq<OutboundFrame>)

  /** Module evaluation: addresses derived, history requested, nothing rendered. */
  function Load(host: string, pathname: string): (pg: Page)
    ensures pg.chatRoom.None?
    ensures pg.room.Some? ==> pg.room.value != "" && RoomPath.NoSlash(pg.room.value)
    ensures pg.room.Some? ==> RoomPath.IsLastSegment(pathname, pg.room.value)
    ensures pg.room.None? <==> RoomPath.AllSlashes(pathname)
    ensures Urls.ParseHistoryPath(pg.historyRequest) == Some(Urls.RoomText(pg.room))
    ensures pg.socketUrl == Urls.SocketUrl(host, pathname)
  {
    var room := RoomPath.ExtractRoom(pathname);
    RoomPath.ExtractRoomNoneIffAllSlashes(pathname);
    Urls.HistoryPathRoundTrip(Urls.RoomText(room));
    var pg := Page(Urls.SocketUrl(host, pathname), room, Urls.HistoryPath(Urls.RoomText(room)), None);
    match room
    case None => pg
    case Some(r) => RoomPath.ExtractRoomIsLastSegment(pathname, r); pg
  }

  /** One event at page level. The history response renders the component
      once; the component reads its `messages` prop only in its constructor,
      so a later render would leave its state alone. Before the component
      exists there is no socket and no form, so room events change nothing. */
  function OnEvent(pg: Page, e: PageEvent): (o: PageOutput)
    ensures o.page.socketUrl == pg.socketUrl
    ensures o.page.room == pg.room && o.page.historyRequest == pg.historyRequest
    ensures pg.chatRoom.None? && e.HistoryResponse? ==>
              o.page.chatRoom == Some(TemplateChatRoom.Init(e.result)) && o.sent.None?
    ensures pg.chatRoom.None? && e.Room? ==> o.page == pg && o.sent.None?
    ensures pg.chatRoom.Some? ==> o.page.chatRoom.Some?
  {
    match e
    case HistoryResponse(result) =>
      if pg.chatRoom.None? then PageOutput(pg.(chatRoom := Some(TemplateChatRoom.Init(result))), None)
      else PageOutput(pg, None)
    case Room(event) =>
      match pg.chatRoom
      case None => PageOutput(pg, None)
      case Some(s) =>
        var o := TemplateChatRoom.Step(s, event);
        PageOutput(pg.(chatRoom := Some(o.state)), o.sent)
  }

  /** The page's events one after another; the trace collects the frames sent. */
  function Run(pg: Page, es: seq<PageEvent>): (t: PageTrace)
    ensures t.page.socketUrl == pg.socketUrl && t.page.historyRequest == pg.historyRequest
    ensures t.page.room == pg.room
    ensures pg.chatRoom.Some? ==> t.page.chatRoom.Some?
    ensures forall i :: 0 <= i < |t.sent| ==> t.sent[i].message != ""
  {
    if es == [] then PageTrace(pg, [])
    else
      var t := Run(pg, es[..|es| - 1]);
      var o := OnEvent(t.page, es[|es| - 1]);
      PageTrace(o.page, t.sent + (if o.sent.Some? then [o.sent.value] else []))
  }

  /** No history response among `es`. */
  predicate Waiting(es: seq<PageEvent>) {
    forall i :: 0 <= i < |es| ==> es[i].Room?
  }

  /** The chat-room events as page events. */
  function AsPageEvents(es: seq<Event>): (ps: seq<PageEvent>)
    ensures |ps| == |es| && Waiting(ps)
    ensures forall i :: 0 <= i < |es| ==> ps[i] == Room(es[i])
  {
    seq(|es|, i requires 0 <= i < |es| => Room(es[i]))
  }

  /** Until the history response arrives nothing is rendered and nothing is sent. */
  lemma {:induction false} NothingBeforeHistory(pg: Page, es: seq<PageEvent>)
    requires pg.chatRoom.None?
    requires Waiting(es)
    ensures Run(pg, es) == PageTrace(pg, [])
  {
    if es != [] {
      NothingBeforeHistory(pg, es[..|es| - 1]);
    }
  }

  /** After the response the page hosts exactly the chat room built from it:
      its state and frames are those of the component run from the history. */
  lemma {:induction false} RenderedFromHistory(pg: Page, before: seq<PageEvent>, result: seq<Message>, es: seq<Event>)
    requires pg.chatRoom.None?
    requires Waiting(before)
    ensures var t := Run(pg, before + [HistoryResponse(result)] + AsPageEvents(es));
            var c := TemplateChatRoom.Run(TemplateChatRoom.Init(result), es);
            t.page.chatRoom == Some(c.state) && t.sent == c.sent
  {
    var ps := before + [HistoryResponse(result)] + AsPageEvents(es);
    if es == [] {
      assert ps[..|ps| - 1] == before;
      NothingBeforeHistory(pg, before);
    } else {
      var init := es[..|es| - 1];
      RenderedFromHistory(pg, before, result, init);
      assert ps[..|ps| - 1] == before + [HistoryResponse(result)] + AsPageEvents(init);
    }
  }

  /** What the room page shows: the history response, then every message
      received after it, in arrival order. */
  lemma PageShowsHistoryThenReceived(host: string, pathname: string, before: seq<PageEvent>, result: seq<Message>, es: seq<Event>)
    requires Waiting(before)
    ensures var t := Run(Load(host, pathname), before + [HistoryResponse(result)] + AsPageEvents(es));
            t.page.chatRoom.Some? && t.page.chatRoom.value.messages == result + Received(es)
  {
    RenderedFromHistory(Load(host, pathname), before, result, es);
    TemplateChatRoom.RunLog(TemplateChatRoom.Init(result), es);
  }

  /** A pathname without a non-empty segment requests the history of a room
      called `undefined`. */
  lemma NoRoomRequestsUndefined(host: string, pathname: string)
    requires RoomPath.AllSlashes(pathname)
    ensures Urls.ParseHistoryPath(Load(host, pathname).historyRequest) == Some("undefined")
  {
  }
}

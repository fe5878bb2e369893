/**
 How the two chat-room clients relate. Their shared handlers agree, so the
 components behave identically whenever the single-page client's history
 arrives before anything else happens. They differ in when they start
 listening: the server-rendered page has neither socket nor form until the
 history arrives, the single-page client has both from construction.
 */
module Variants {
  import opened Chat
  import TemplateChatRoom
  import SrcChatRoom
  import TemplateEntry

  /** The two components handle frames, changes and submits identically. */
  lemma HandlersAgree(s: State, e: Event)
    ensures SrcChatRoom.Step(s, SrcChatRoom.Handle(e)) == TemplateChatRoom.Step(s, e)
  {
  }

  /** A single-page component whose history arrives first is, from then on,
      indistinguishable from a server-rendered one built with that history:
      same log, same draft, same frames sent. */
  lemma {:induction false} AgreeWhenHistoryFirst(data: seq<Message>, es: seq<Event>)
    ensures SrcChatRoom.Run(SrcChatRoom.Init(), [SrcChatRoom.HistoryLoaded(data)] + SrcChatRoom.AsRoomEvents(es))
         == TemplateChatRoom.Run(TemplateChatRoom.Init(data), es)
  {
    var rs := [SrcChatRoom.HistoryLoaded(data)] + SrcChatRoom.AsRoomEvents(es);
    if es == [] {
      assert rs == [SrcChatRoom.HistoryLoaded(data)];
      assert rs[..0] == [];
    } else {
      var init := es[..|es| - 1];
      AgreeWhenHistoryFirst(data, init);
      assert rs[..|rs| - 1] == [SrcChatRoom.HistoryLoaded(data)] + SrcChatRoom.AsRoomEvents(init);
      HandlersAgree(SrcChatRoom.Run(SrcChatRoom.Init(), rs[..|rs| - 1]).state, es[|es| - 1]);
    }
  }

  /** A frame broadcast before the history arrives is lost by both clients,
      for different reasons: the server-rendered page has no socket until it
      renders the component from the history, so the frame never reaches it;
      the single-page client listens from construction, appends the frame,
      and the history then overwrites the log. Afterwards both show the
      history followed by every later frame. */
  lemma EarlyFrameLostByBoth(host: string, pathname: string, f: InboundFrame, data: seq<Message>, es: seq<Event>)
    ensures var t := TemplateEntry.Run(TemplateEntry.Load(host, pathname),
                       [TemplateEntry.Room(Receive(f)), TemplateEntry.HistoryResponse(data)] + TemplateEntry.AsPageEvents(es));
            t.page.chatRoom.Some? && t.page.chatRoom.value.messages == data + Received(es)
    ensures SrcChatRoom.Run(SrcChatRoom.Init(),
              [SrcChatRoom.Handle(Receive(f)), SrcChatRoom.HistoryLoaded(data)] + SrcChatRoom.AsRoomEvents(es)).state.messages
            == data + Received(es)
  {
    var before := [TemplateEntry.Room(Receive(f))];
    assert before + [TemplateEntry.HistoryResponse(data)] == [TemplateEntry.Room(Receive(f)), TemplateEntry.HistoryResponse(data)];
    TemplateEntry.PageShowsHistoryThenReceived(host, pathname, before, data, es);
    var live := [SrcChatRoom.Handle(Receive(f))];
    assert live + [SrcChatRoom.HistoryLoaded(data)] == [SrcChatRoom.Handle(Receive(f)), SrcChatRoom.HistoryLoaded(data)];
    SrcChatRoom.HistoryThenLive(SrcChatRoom.Init(), live, data, SrcChatRoom.AsRoomEvents(es));
    SrcChatRoom.HandledAsRoomEvents(es);
  }

  /** Where the two clients do differ: the single-page client shows its form
      from the start, so text typed and submitted on an open socket before the
      history arrives is sent; the server-rendered page has no form yet, so
      the same events send nothing. */
  lemma EarlySubmitOnlyBySinglePage(host: string, pathname: string, text: string)
    requires text != ""
    ensures TemplateEntry.Run(TemplateEntry.Load(host, pathname),
              TemplateEntry.AsPageEvents([Change(text), Submit(Open)])).sent == []
    ensures SrcChatRoom.Run(SrcChatRoom.Init(),
              SrcChatRoom.AsRoomEvents([Change(text), Submit(Open)])).sent == [OutboundFrame(text)]
  {
    TemplateEntry.NothingBeforeHistory(TemplateEntry.Load(host, pathname), TemplateEntry.AsPageEvents([Change(text), Submit(Open)]));
    var rs := SrcChatRoom.AsRoomEvents([Change(text), Submit(Open)]);
    assert rs == [SrcChatRoom.Handle(Change(text)), SrcChatRoom.Handle(Submit(Open))];
    assert rs[..1] == [SrcChatRoom.Handle(Change(text))];
    assert SrcChatRoom.Run(SrcChatRoom.Init(), rs[..1]).state.draft == text;
  }
}

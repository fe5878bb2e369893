# Chat-room client: message log, draft and room addresses

This project models the browser side of a Django Channels chat room. A room page
extracts the room name from its pathname. It fetches the room's message history
over HTTP and opens a WebSocket. It keeps a message log and a draft. The draft
is sent over the socket when the user submits.

The repository holds two versions of the chat-room component, and both are modelled:

- **Server-rendered page** (`templates/components/chat_room_component/`).
  - The entry script derives the socket URL from the raw pathname and extracts the room.
  - It requests the room's history and renders the component only when the response arrives.
  - The component is constructed with that history as its log.
- **Single-page client** (`src/components/ChatRoom.js`).
  - The component starts with an empty log and requests the history itself.
  - When the response arrives it *replaces* the whole log. Any live message that came first is lost.
  - As written its first render throws, because the list is given `messages` but reads `content` (see Findings). The model describes the component as if the list were given `content`.

Each handler (`handleData`, `handleChange`, `handleSubmin`, and the history completion)
is modelled as a pure step. A step maps the state `(messages, draft)` to the next
state and at most one transmitted frame `{message: draft}`. Frames are already
decoded datatypes. A `Run` function applies a sequence of events.

A submit carries the socket's ready state at that moment. `handleSubmin` calls
`send` before it resets the input. `send` throws on a socket that is still
connecting, so the reset is skipped and the draft survives. On a closing or
closed socket `send` discards the frame without an error, and the draft is
cleared.

Modules:

- `Chat`: shared vocabulary.
- `RoomPath`: room extraction.
- `Urls`: history path and socket URL.
- `TemplateChatRoom` and `SrcChatRoom`: the two components.
- `TemplateEntry`: the server-rendered page's entry script.
- `Variants`: how the two components relate.

The client has no de-duplication by id. It does not buffer live messages until
history arrives, and it has no reconnect or teardown logic of its own. It does
not tolerate malformed frames. The server-rendered page's socket URL is
`'/ws' + pathname`, not one built from the room.

## Model

| member | source | states |
|---|---|---|
| RoomPath.Split | templates/components/chat_room_component/index.jsx:9 | `split('/')` yields at least one piece and no piece contains a slash |
| RoomPath.JoinSplit | templates/components/chat_room_component/index.jsx:9 | splitting loses nothing: joining the pieces with `/` gives the pathname back |
| RoomPath.SplitJoin | templates/components/chat_room_component/index.jsx:9 | joining slash-free pieces and splitting again gives the same pieces |
| RoomPath.Reverse | templates/components/chat_room_component/index.jsx:9 | `reverse()` keeps the length and puts element `i` at position `n-1-i` |
| RoomPath.DropEmpty | templates/components/chat_room_component/index.jsx:9 | `filter(x => x)` keeps exactly the non-empty strings: every kept item is non-empty and from the input, and every non-empty input item is kept |
| RoomPath.DropEmptyAppend | templates/components/chat_room_component/index.jsx:9 | `filter(x => x)` keeps the order: filtering `a + b` gives the filtered `a` followed by the filtered `b` |
| RoomPath.ExtractRoom | templates/components/chat_room_component/index.jsx:9 | an extracted room is never empty and never contains `/` |
| RoomPath.ExtractRoomIsLastSegment | templates/components/chat_room_component/index.jsx:9 | the extraction yields `r` if and only if `r` is a whole non-empty segment followed only by slashes |
| RoomPath.ExtractRoomNoneIffAllSlashes | templates/components/chat_room_component/index.jsx:9 | the room is `undefined` exactly when the pathname consists of slashes only (e.g. `/`) |
| RoomPath.TrailingSlashIgnored | templates/components/chat_room_component/index.jsx:9 | appending a slash to the pathname never changes the room |
| RoomPath.LeadingSlashIgnored | templates/components/chat_room_component/index.jsx:9 | prefixing a slash to the pathname never changes the room |
| RoomPath.AppendedSegmentIsRoom | templates/components/chat_room_component/index.jsx:9 | a slash-free non-empty segment after the last slash is the room |
| RoomPath.ExtractRoomExamples | templates/components/chat_room_component/index.jsx:9 | `/abc`, `/abc/`, `//abc//` all yield `abc`; `/` yields none |
| Urls.RoomText | templates/components/chat_room_component/index.jsx:9-10 | JavaScript's `+` renders a defined room as itself and a missing one as the text `undefined` |
| Urls.HistoryPath | templates/components/chat_room_component/index.jsx:10 | the history path is the fixed prefix `/api/messages/`, the room unescaped, then the fixed suffix `/?format=json` |
| Urls.ParseHistoryPath | templates/components/chat_room_component/index.jsx:10 | a string the parser accepts is exactly the history path of the room it returns |
| Urls.HistoryPathRoundTrip | templates/components/chat_room_component/index.jsx:10 | the history path names its room: parsing `'/api/messages/' + room + '/?format=json'` returns `room` |
| Urls.MissingRoomCollides | templates/components/chat_room_component/index.jsx:9-10 | an `undefined` room requests the same path as a room called `undefined` |
| Urls.SocketPath | templates/components/chat_room_component/index.jsx:6 | the socket path is `/ws` followed by the raw pathname |
| Urls.SocketUrl | templates/components/chat_room_component/index.jsx:6 | the URL is `ws://` and the host, then `/ws`, then the raw pathname |
| Urls.SocketPathRoom | templates/components/chat_room_component/index.jsx:6-9 | the socket path `'/ws' + pathname` has the pathname's room as its last segment; a pathname of slashes leaves `ws` there |
| TemplateEntry.Load | templates/components/chat_room_component/index.jsx:6-10 | on load nothing is rendered; the room is the pathname's last non-empty segment, and `undefined` exactly when there is none; the history request parses back to that room (or `undefined`); the socket uses the raw pathname |
| TemplateEntry.OnEvent | templates/components/chat_room_component/index.jsx:10-18 | the response renders the component with the response as its messages; before that, events change nothing and send nothing |
| TemplateEntry.Run | templates/components/chat_room_component/index.jsx:6-18 | the addresses and the room never change; once rendered the component stays rendered; no frame sent is empty |
| TemplateEntry.NothingBeforeHistory | templates/components/chat_room_component/index.jsx:10-16 | until the history response arrives the page renders nothing and sends nothing |
| TemplateEntry.RenderedFromHistory | templates/components/chat_room_component/index.jsx:10-16 | after the response the page hosts exactly the component built from it: same state and frames |
| TemplateEntry.PageShowsHistoryThenReceived | templates/components/chat_room_component/index.jsx:10-16 | the page's log is the history response followed by every received message in order |
| TemplateEntry.NoRoomRequestsUndefined | templates/components/chat_room_component/index.jsx:9-10 | a pathname of slashes requests the history of the room `undefined` |
| Chat.SendSocketMessage | templates/components/chat_room_component/ChatRoom.jsx:43-46 | `send` throws exactly when the socket is still connecting, transmits the frame `{message}` exactly when it is open, and otherwise discards it |
| Chat.ListRender | templates/components/chat_room_component/ChatRoom.jsx:4-21 | a message list shows exactly its `content` prop, and crashes (renders nothing) exactly when that prop is missing |
| TemplateChatRoom.Init | templates/components/chat_room_component/ChatRoom.jsx:25-28 | the initial log is the `messages` prop and the draft is empty |
| TemplateChatRoom.Step | templates/components/chat_room_component/ChatRoom.jsx:39-56 | receive appends exactly the frame's message at the end (old log a strict prefix) and keeps the draft; change sets the draft and keeps the log; submit keeps the log, clears the draft unless the socket is still connecting, and transmits one frame carrying the draft iff the draft is non-empty and the socket open |
| TemplateChatRoom.Run | templates/components/chat_room_component/ChatRoom.jsx:39-56 | the log only grows (old log is a prefix); no more frames than submits; no frame is empty |
| TemplateChatRoom.RunLog | templates/components/chat_room_component/ChatRoom.jsx:39-42 | after any events the log is the start log followed by every received message in order, and nothing else |
| TemplateChatRoom.ListShowsHistoryThenReceived | templates/components/chat_room_component/ChatRoom.jsx:68 | the list is handed the state's log as `content` and shows the initial messages then every received message |
| TemplateChatRoom.RepeatedFrameAppearsTwice | templates/components/chat_room_component/ChatRoom.jsx:39-42 | no de-duplication: the same frame received twice appears twice |
| TemplateChatRoom.DraftIsLastInput | templates/components/chat_room_component/ChatRoom.jsx:47-56 | the draft is the last typed value unless a later submit on a socket that was not connecting cleared it; frames never touch it |
| TemplateChatRoom.SubmitSendsLastInput | templates/components/chat_room_component/ChatRoom.jsx:43-56 | a submit on an open socket transmits exactly one frame carrying the last typed text, none when it is empty; on any other socket it transmits nothing |
| TemplateChatRoom.TypeSubmitEcho | templates/components/chat_room_component/ChatRoom.jsx:39-56 | typing and submitting on an open socket sends the text once and leaves the log alone; the message enters the log only when echoed back |
| TemplateChatRoom.RetryAfterConnecting | templates/components/chat_room_component/ChatRoom.jsx:43-56 | a submit while the socket is connecting sends nothing and keeps the typed text, which a submit on the open socket then sends |
| TemplateChatRoom.SubmitOnClosedLosesDraft | templates/components/chat_room_component/ChatRoom.jsx:43-56 | a submit on a closing or closed socket clears the typed text and transmits nothing |
| TemplateChatRoom.SubmitTwiceSendsOnce | templates/components/chat_room_component/ChatRoom.jsx:50-56 | after a submit on an open socket, a second submit without typing sends nothing, whatever the socket's state |
| SrcChatRoom.Init | src/components/ChatRoom.js:8-10 | the initial log and draft are empty |
| SrcChatRoom.HistoryRequest | src/components/ChatRoom.js:28-33 | the history request parses back to the route's room |
| SrcChatRoom.Step | src/components/ChatRoom.js:30-52 | history completion sets the log to exactly the fetched list and keeps the draft; receive, change and submit behave as in the server-rendered component, including the throw on a connecting socket |
| SrcChatRoom.Run | src/components/ChatRoom.js:30-52 | without a history completion the old log stays a prefix; no frame sent is empty |
| SrcChatRoom.RunAppend | src/components/ChatRoom.js:30-52 | handling `a` then `b` is handling `a + b`: states chain and the frames sent concatenate |
| SrcChatRoom.LiveOnlyLog | src/components/ChatRoom.js:35-37 | before any history completion the log is the start log followed by every received message in order |
| SrcChatRoom.HistoryOverwrites | src/components/ChatRoom.js:31-33 | a history completion leaves exactly the fetched list in the log |
| SrcChatRoom.HistoryThenLive | src/components/ChatRoom.js:30-37 | after the last history completion the log is that history followed by every later received message; everything before it is gone |
| SrcChatRoom.LiveBeforeHistoryIsDropped | src/components/ChatRoom.js:21-37 | a live message arriving before the history is overwritten: the log is exactly the history |
| SrcChatRoom.ListPropsAsWritten | src/components/ChatRoom.js:61 | as written the log is passed as `messages` and no `content` prop is given |
| SrcChatRoom.ListProps | src/components/ChatRoom.js:61 | corrected, the log is passed as `content` |
| SrcChatRoom.ListAsWrittenNeverRenders | src/components/MessageList.js:7-16 | as written the list crashes in every state, the first render included |
| SrcChatRoom.ListShowsHistoryThenLive | src/components/MessageList.js:7-16 | corrected, the list shows the history followed by every later received message |
| SrcChatRoom.SocketPathAsWritten | src/components/ChatRoom.js:12-14 | as written the socket path is `/ws/undefined/` whatever the room |
| SrcChatRoom.RoomSocketPath | src/components/ChatRoom.js:12-14 | corrected, the socket path is `/ws/`, the room, then `/` |
| SrcChatRoom.SocketPathAsWrittenIgnoresRoom | src/components/ChatRoom.js:12-14 | as written the socket path's room is `undefined` for every room |
| SrcChatRoom.SocketPathNamesRoom | src/components/ChatRoom.js:11-14 | with the route's room, the socket path's last segment is that room |
| Variants.HandlersAgree | src/components/ChatRoom.js:35-52 | both components handle receive, change and submit identically |
| Variants.AgreeWhenHistoryFirst | src/components/ChatRoom.js:8-52 | history arriving first makes the single-page component behave exactly like a server-rendered one built from that history |
| Variants.EarlyFrameLostByBoth | src/components/ChatRoom.js:21-37 | a frame broadcast before the history is shown by neither client: the page is not yet listening, the single-page client overwrites it; both then show the history and every later frame |
| Variants.EarlySubmitOnlyBySinglePage | src/components/ChatRoom.js:46-61 | text submitted on an open socket before the history is sent by the single-page client, whose form exists from the start, and not by the server-rendered page |

## Left out

- Rendering: the lists and forms are reduced to what they show. `Chat.ListRender` returns the items of the `content` prop, or nothing when that prop is missing; markup and React keys are not modelled.
- SrcChatRoom: its handlers are modelled as if `ChatRoom` passed the log as `content`. As written the first render throws, so the component never mounts and none of these handlers runs (see Findings).
- React's `setState` is asynchronous and may batch updates. The model applies each update before the next event.
- The WebSocket connection and the `react-websocket` library are foreign code. This covers opening, closing and the library's `reconnect` policy. Socket traffic appears only as `Receive` events and transmitted frames, and the socket's ready state only as the state each `Submit` carries.
- An exception thrown by `send` propagates out of the event handler. The model keeps the state unchanged and sends nothing; the error report itself is not modelled.
- jQuery `$.get` is foreign code. A response is a `HistoryResponse`/`HistoryLoaded` event. A failed request has no handler and appears as no event at all.
- JSON encoding and decoding are not modelled. Frames are decoded datatypes. A malformed frame makes `JSON.parse` throw, and the model does not cover that.
- `componentWillUnmount` calls `abort()` on a `serverRequest` field that is never assigned. Teardown is not modelled.
- `console.log` in the single-page `handleData` is an effect with no state.
- Message ids are modelled as integers. The client never inspects them beyond using them as React keys.
- Urls.SocketPathRoom: requires the pathname to start with `/`. Browsers always give `window.location.pathname` that form.
- Room-input components are out of scope. So are client routing, the Django URL and WebSocket routes, and the build configuration. The server's socket route `ws/chat/<room_name>/` does not match the client's `/ws/...` paths, but the server is not modelled.

## Findings

| source | as written | input that shows it | evidently intended | confidence | as-written member | corrected member |
|---|---|---|---|---|---|---|
| src/components/ChatRoom.js:61 | `ChatRoom` passes the log as `messages`, but `MessageList` reads `this.props.content` (MessageList.js:7) and calls `.map` on it in render (MessageList.js:16) | any route: the first render throws on `undefined.map`; React 16.3 or later (the code uses `createRef`) then unmounts the tree, so `componentDidMount` never requests the history or attaches the listener | `<MessageList content={this.state.messages} />` | high; not executed | SrcChatRoom.ListAsWrittenNeverRenders | SrcChatRoom.ListShowsHistoryThenLive |
| src/components/ChatRoom.js:12-14 | the socket URL is `"/ws/" + this.room + '/'`, and `this.room` is never assigned, so it renders `undefined` | route room `lobby` connects to `/ws/undefined/` | `"/ws/" + room + '/'` with the room taken from the route (`state.room`) | high; not executed | SrcChatRoom.SocketPathAsWrittenIgnoresRoom | SrcChatRoom.SocketPathNamesRoom |

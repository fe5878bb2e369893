/**
 The two addresses the chat-room client derives from a room: the HTTP path
 of the room's message history and the WebSocket URL of its live channel.
 Strings are concatenated exactly as the client does it, including
 JavaScript's rendering of a missing room as the text `undefined`.
 */
module Urls {
  import opened Chat
  import RoomPath

  const HistoryPrefix: string := "/api/messages/"
  const HistorySuffix: string := "/?format=json"

  /** How JavaScript's `+` renders a room that may be `undefined`: a defined
      room as itself, a missing one as the nine letters `undefined`. */
  function RoomText(room: Option<string>): (text: string)
    ensures room.Some? ==> text == room.value
    ensures room.None? ==> text == "undefined"
  {
    match room
    case Some(r) => r
    case None => "undefined"
  }

  /** `'/api/messages/' + room + '/?format=json'`: the room sits, unescaped,
      between the fixed prefix and the fixed suffix. */
  function HistoryPath(room: string): (url: string)
    ensures |url| == |HistoryPrefix| + |room| + |HistorySuffix|
    ensures url[..|HistoryPrefix|] == HistoryPrefix
    ensures url[|HistoryPrefix|..|url| - |HistorySuffix|] == room
    ensures url[|url| - |HistorySuffix|..] == HistorySuffix
  {
    HistoryPrefix + room + HistorySuffix
  }

  /** Reads the room back out of a history path; `None` for any other string. */
  function ParseHistoryPath(url: string): (room: Option<string>)
    ensures room.Some? ==> HistoryPath(room.value) == url
  {
    if |url| >= |HistoryPrefix| + |HistorySuffix|
       && url[..|HistoryPrefix|] == HistoryPrefix
       && url[|url| - |HistorySuffix|..] == HistorySuffix
    then
      var room := url[|HistoryPrefix|..|url| - |HistorySuffix|];
      assert url == url[..|HistoryPrefix|] + room + url[|url| - |HistorySuffix|..];
      Some(room)
    else None
  }

  /** The history path names its room: parsing it gives the room back, so
      different rooms request different paths. */
  lemma HistoryPathRoundTrip(room: string)
    ensures ParseHistoryPath(HistoryPath(room)) == Some(room)
  {
    var url := HistoryPath(room);
    assert url[..|HistoryPrefix|] == HistoryPrefix;
    assert url[|url| - |HistorySuffix|..] == HistorySuffix;
    assert url[|HistoryPrefix|..|url| - |HistorySuffix|] == room;
  }

  /** A missing room and a room literally called `undefined` request the same history. */
  lemma MissingRoomCollides()
    ensures HistoryPath(RoomText(None)) == HistoryPath("undefined")
    ensures ParseHistoryPath(HistoryPath(RoomText(None))) == Some("undefined")
  {
    HistoryPathRoundTrip("undefined");
  }

  /** The path part of the template client's socket URL: `'/ws' + pathname`. */
  function SocketPath(pathname: string): (p: string)
    ensures |p| == |pathname| + 3
    ensures p[..3] == "/ws" && p[3..] == pathname
  {
    "/ws" + pathname
  }

  /** `'ws://' + host + '/ws' + pathname`, built from the raw pathname. */
  function SocketUrl(host: string, pathname: string): (url: string)
    ensures |url| == |"ws://"| + |host| + |"/ws"| + |pathname|
    ensures url[..|"ws://"| + |host|] == "ws://" + host
    ensures url[|"ws://"| + |host|..|url| - |pathname|] == "/ws"
    ensures url[|url| - |pathname|..] == pathname
  {
    "ws://" + host + SocketPath(pathname)
  }

  /** The pathname's last segment stays last behind the `/ws` prefix. */
  lemma SocketPathKeepsSegment(pathname: string, q: string, r: string, k: int)
    requires |pathname| > 0 && pathname[0] == '/'
    requires q == "/ws" + pathname
    requires r != "" && RoomPath.NoSlash(r) && RoomPath.SegmentAt(pathname, r, k)
    ensures RoomPath.LastSegment(q) == Some(r)
  {
    assert k > 0;
    assert q[k + 3..k + 3 + |r|] == pathname[k..k + |r|];
    assert q[k + 3 + |r|..] == pathname[k + |r|..];
    assert q[k + 2] == pathname[k - 1];
    assert RoomPath.SegmentAt(q, r, k + 3);
    RoomPath.SegmentIsFound(q, r, k + 3);
  }

  /** Behind the `/ws` prefix, a pathname of slashes leaves `ws` as the last segment. */
  lemma SocketPathOfSlashes(pathname: string, q: string)
    requires RoomPath.AllSlashes(pathname)
    requires q == "/ws" + pathname
    ensures RoomPath.LastSegment(q) == Some("ws")
  {
    var ws := q[1..3];
    assert ws == "ws";
    assert q[3..] == pathname;
    assert RoomPath.SegmentAt(q, ws, 1);
    RoomPath.SegmentIsFound(q, ws, 1);
  }

  /** `SocketPathRoom` for the right-to-left search `LastSegment`. */
  lemma SocketPathSegment(pathname: string, q: string)
    requires |pathname| > 0 && pathname[0] == '/'
    requires q == "/ws" + pathname
    ensures RoomPath.LastSegment(q)
         == (if RoomPath.LastSegment(pathname).Some? then RoomPath.LastSegment(pathname) else Some("ws"))
  {
    RoomPath.LastSegmentSound(pathname);
    match RoomPath.LastSegment(pathname)
    case Some(r) =>
      var k :| RoomPath.SegmentAt(pathname, r, k);
      SocketPathKeepsSegment(pathname, q, r, k);
    case None =>
      SocketPathOfSlashes(pathname, q);
  }

  /** The socket path and the pathname have the same last segment whenever the
      pathname has one; a pathname of slashes alone leaves `ws` as the last
      segment of the socket path, while the history request names no room. */
  lemma SocketPathRoom(pathname: string)
    requires |pathname| > 0 && pathname[0] == '/'
    ensures RoomPath.ExtractRoom(SocketPath(pathname))
         == (if RoomPath.ExtractRoom(pathname).Some? then RoomPath.ExtractRoom(pathname) else Some("ws"))
  {
    var q := SocketPath(pathname);
    RoomPath.ExtractRoomIsLastSegmentFn(pathname);
    RoomPath.ExtractRoomIsLastSegmentFn(q);
    SocketPathSegment(pathname, q);
  }
}

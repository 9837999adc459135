/**
 * The real-time room hub of backend/socket/index.js as a state machine over
 * values. A `State` holds the live sockets (each with its authenticated user id
 * and its transport rooms), the `activeRooms` registry, and every message the
 * hub has emitted so far. Each handler of the source is one function from the
 * state before the event to the state after it; the class in hub.dfy performs
 * the same steps in place and is proved against these functions.
 *
 * Transport rooms follow socket.io 4: every socket is in the room named by its
 * own id from the moment it connects, `socket.join`/`socket.leave` add and
 * remove a room, `io.to(x)` reaches every live socket in room `x`, `socket.to(x)`
 * the same sockets except those in the room named by the sender's id, and
 * `socket.emit` the socket itself.
 */
module HubModel {
  import opened Wrappers
  import opened Text
  import opened PeerTable

  type RoomId = string

  /** A client-supplied value the hub passes on without looking inside it. */
  type Payload = string

  /** A live socket: `socket.userId` and `socket.rooms` (a `Set`, so in insertion order). */
  datatype Conn = Conn(userId: UserId, rooms: seq<RoomId>)

  /** The events a connected client may send, with the fields each handler reads. */
  datatype Request =
    | Join(roomId: RoomId, username: string)
    | Leave(roomId: RoomId)
    | Offer(targetSocketId: SocketId, offer: Payload, fromSocketId: SocketId, username: string)
    | Answer(targetSocketId: SocketId, answer: Payload)
    | IceCandidate(targetSocketId: SocketId, candidate: Payload)
    | ScreenShare(roomId: RoomId, isSharing: Payload)
    | Draw(roomId: RoomId, event: Payload)
    | Clear(roomId: RoomId)
    | RequestState(roomId: RoomId)
    | SendState(targetSocketId: SocketId, state: Payload)
    | ShareFile(roomId: RoomId, file: Payload, username: string)
    | Chat(roomId: RoomId, message: Payload, username: string)
    | ToggleMedia(roomId: RoomId, kind: Payload, enabled: Payload)

  /** The events the hub emits, named after their wire names. */
  datatype Event =
    | RoomExistingPeers(peers: seq<Peer>)
    | RoomPeerJoined(socketId: SocketId, userId: UserId, username: string)
    | RoomPeerLeft(socketId: SocketId)
    | WebrtcOffer(offer: Payload, fromSocketId: SocketId, username: string)
    | WebrtcAnswer(answer: Payload, fromSocketId: SocketId)
    | WebrtcIceCandidate(candidate: Payload, fromSocketId: SocketId)
    | WebrtcScreenShare(fromSocketId: SocketId, isSharing: Payload)
    | WhiteboardDraw(event: Payload)
    | WhiteboardClear
    | WhiteboardSendStateRequest(requestingSocketId: SocketId)
    | WhiteboardState(state: Payload)
    | FileShared(file: Payload, username: string)
    | ChatMessage(id: string, message: Payload, username: string, userId: UserId, timestamp: string)
    | MediaToggle(fromSocketId: SocketId, kind: Payload, enabled: Payload)

  /** One `emit`: the sockets it reached and what they received. */
  datatype Emission = Emission(to: set<SocketId>, event: Event)

  datatype State = State(
    sockets: map<SocketId, Conn>,
    activeRooms: map<RoomId, Table>,
    sent: seq<Emission>)

  datatype AuthResult = Admitted(userId: UserId) | Rejected(reason: string)

  // ---------------------------------------------------------------------------
  // Transport
  // ---------------------------------------------------------------------------

  /** The live sockets in transport room `room`. */
  function Members(sockets: map<SocketId, Conn>, room: RoomId): (r: set<SocketId>)
    ensures r <= sockets.Keys
    ensures forall s :: s in sockets ==> (s in r <==> room in sockets[s].rooms)
  {
    set s | s in sockets && room in sockets[s].rooms
  }

  /**
   * The sockets `socket.to(room)` reaches: those in `room`, less every socket in
   * the room named by the sender's id. socket.io 4 excludes that room, not the
   * sender as such, so the sender is skipped only while it is still in its own
   * id room, and any socket that joined a room of that name is skipped too.
   */
  function ToOthers(sockets: map<SocketId, Conn>, sid: SocketId, room: RoomId): (r: set<SocketId>)
    ensures r <= Members(sockets, room)
    ensures sid in sockets && sid in sockets[sid].rooms ==> sid !in r
    ensures forall s :: s in sockets && sid in sockets[s].rooms ==> s !in r
    ensures room == sid ==> r == {}
  {
    Members(sockets, room) - Members(sockets, sid)
  }

  /** What one emit adds to the log: nothing when it reaches no socket. */
  function Out(to: set<SocketId>, e: Event): seq<Emission> {
    if to == {} then [] else [Emission(to, e)]
  }

  predicate NoDuplicates(s: seq<RoomId>) {
    forall i, j :: 0 <= i < j < |s| ==> s[i] != s[j]
  }

  /** `set.delete(x)` on a set kept in insertion order. */
  function Erase(s: seq<RoomId>, x: RoomId): (r: seq<RoomId>)
    ensures forall y :: y in r <==> y in s && y != x
    ensures NoDuplicates(s) ==> NoDuplicates(r)
    ensures x !in s ==> r == s
  {
    if s == [] then []
    else if s[0] == x then Erase(s[1..], x)
    else
      var rest := Erase(s[1..], x);
      assert NoDuplicates(s) ==> s[0] !in rest by {
        if NoDuplicates(s) {
          assert forall j :: 1 <= j < |s| ==> s[j] != s[0];
          assert s[0] !in s[1..];
        }
      }
      [s[0]] + rest
  }

  /** `socket.join(room)`. */
  function JoinTransport(c: Conn, room: RoomId): (r: Conn)
    ensures r.userId == c.userId
    ensures forall x :: x in r.rooms <==> x in c.rooms || x == room
    ensures NoDuplicates(c.rooms) ==> NoDuplicates(r.rooms)
  {
    if room in c.rooms then c else c.(rooms := c.rooms + [room])
  }

  /** `socket.leave(room)`. */
  function LeaveTransport(c: Conn, room: RoomId): (r: Conn)
    ensures r.userId == c.userId
    ensures forall x :: x in r.rooms <==> x in c.rooms && x != room
    ensures NoDuplicates(c.rooms) ==> NoDuplicates(r.rooms)
  {
    c.(rooms := Erase(c.rooms, room))
  }

  // ---------------------------------------------------------------------------
  // Connection authentication (the `io.use` middleware)
  // ---------------------------------------------------------------------------

  /**
   * A missing or empty token is refused before the verifier runs; a token the
   * verifier rejects is refused with the second message; otherwise the socket
   * is admitted with the id the token carries.
   */
  function Authenticate(token: Option<string>, verify: string -> Option<UserId>): (r: AuthResult)
    ensures (token == None || token == Some("")) ==> r == Rejected("Authentication required")
    ensures token.Some? && token.value != "" && verify(token.value) == None ==>
              r == Rejected("Invalid or expired token")
    ensures r.Admitted? <==> token.Some? && token.value != "" && verify(token.value).Some?
    ensures r.Admitted? ==> Some(r.userId) == verify(token.value)
  {
    if token == None || token.value == "" then Rejected("Authentication required")
    else match verify(token.value)
      case None => Rejected("Invalid or expired token")
      case Some(id) => Admitted(id)
  }

  /** socket.io's own connect step: the socket goes live in the room named by its id. */
  function Admit(st: State, sid: SocketId, userId: UserId): (r: State)
    ensures r.sockets.Keys == st.sockets.Keys + {sid}
    ensures r.sockets[sid] == Conn(userId, [sid])
    ensures forall s :: s in st.sockets && s != sid ==> r.sockets[s] == st.sockets[s]
    ensures r.activeRooms == st.activeRooms && r.sent == st.sent
  {
    st.(sockets := st.sockets[sid := Conn(userId, [sid])])
  }

  // ---------------------------------------------------------------------------
  // Handlers
  // ---------------------------------------------------------------------------

  /** The registry entry of `room`, or an empty table when there is none. */
  function RoomTable(st: State, room: RoomId): Table {
    if room in st.activeRooms then st.activeRooms[room] else []
  }

  /** `room:join`. */
  function JoinRoom(st: State, sid: SocketId, room: RoomId, username: string): (r: State)
    requires sid in st.sockets
    ensures r.sockets.Keys == st.sockets.Keys && room in r.sockets[sid].rooms
    ensures room in r.activeRooms && Peer(st.sockets[sid].userId, username, sid) in r.activeRooms[room]
    ensures st.sent <= r.sent && |r.sent| <= |st.sent| + 2
  {
    var conn := st.sockets[sid];
    var sockets := st.sockets[sid := JoinTransport(conn, room)];
    var peers := Set(RoomTable(st, room), Peer(conn.userId, username, sid));
    var sent := st.sent
      + Out({sid}, RoomExistingPeers(Without(peers, sid)))
      + Out(ToOthers(sockets, sid, room), RoomPeerJoined(sid, conn.userId, username));
    State(sockets, st.activeRooms[room := peers], sent)
  }

  /** `handlePeerLeave`, run by `room:leave` and by `disconnecting`. */
  function PeerLeave(st: State, sid: SocketId, room: RoomId): (r: State)
    requires sid in st.sockets
    ensures r.sockets.Keys == st.sockets.Keys && room !in r.sockets[sid].rooms
    ensures room in r.activeRooms ==> sid !in Ids(r.activeRooms[room])
    ensures st.sent <= r.sent && |r.sent| <= |st.sent| + 1
  {
    var registry :=
      if room in st.activeRooms then
        var rest := Without(st.activeRooms[room], sid);
        if |rest| == 0 then st.activeRooms - {room} else st.activeRooms[room := rest]
      else st.activeRooms;
    var sent := st.sent + Out(ToOthers(st.sockets, sid, room), RoomPeerLeft(sid));
    State(st.sockets[sid := LeaveTransport(st.sockets[sid], room)], registry, sent)
  }

  /** `io.to(target).emit(...)`: a directed relay. */
  function Relay(st: State, target: SocketId, e: Event): (r: State)
    ensures r.sockets == st.sockets && r.activeRooms == st.activeRooms
    ensures st.sent <= r.sent && |r.sent| <= |st.sent| + 1
    ensures target !in st.sockets && (forall s :: s in st.sockets ==> target !in st.sockets[s].rooms) ==> r == st
  {
    st.(sent := st.sent + Out(Members(st.sockets, target), e))
  }

  /** `socket.to(room).emit(...)`: a room broadcast that skips the sender's id room. */
  function Broadcast(st: State, sid: SocketId, room: RoomId, e: Event): (r: State)
    ensures r.sockets == st.sockets && r.activeRooms == st.activeRooms
    ensures st.sent <= r.sent && |r.sent| <= |st.sent| + 1
    ensures |r.sent| == |st.sent| + 1 ==> r.sent[|st.sent|].to <= Members(st.sockets, room)
  {
    st.(sent := st.sent + Out(ToOthers(st.sockets, sid, room), e))
  }

  /** `io.to(room).emit(...)`: a room broadcast that includes the sender. */
  function RoomEmit(st: State, room: RoomId, e: Event): (r: State)
    ensures r.sockets == st.sockets && r.activeRooms == st.activeRooms
    ensures st.sent <= r.sent && |r.sent| <= |st.sent| + 1
  {
    st.(sent := st.sent + Out(Members(st.sockets, room), e))
  }

  /** The server-stamped chat id `${socket.id}-${Date.now()}`. */
  function ChatId(sid: SocketId, now: nat): (r: string)
    ensures |r| > |sid| + 1 && r[..|sid|] == sid && r[|sid|] == '-'
    ensures AllDigits(r[|sid| + 1..]) && DigitsValue(r[|sid| + 1..]) == now
  {
    DecimalRoundTrip(now);
    var r := sid + "-" + DecimalString(now);
    assert r[|sid| + 1..] == DecimalString(now);
    r
  }

  /**
   * One handler run for a live socket. `now` is `Date.now()` and `timestamp`
   * is `new Date().toISOString()`, both read by the chat handler.
   */
  function Handle(st: State, sid: SocketId, req: Request, now: nat, timestamp: string): (r: State)
    requires sid in st.sockets
    ensures r.sockets.Keys == st.sockets.Keys && st.sent <= r.sent
    ensures !req.Join? && !req.Leave? ==> r.sockets == st.sockets && r.activeRooms == st.activeRooms
  {
    match req
    case Join(roomId, username) => JoinRoom(st, sid, roomId, username)
    case Leave(roomId) => PeerLeave(st, sid, roomId)
    case Offer(target, offer, _, username) => Relay(st, target, WebrtcOffer(offer, sid, username))
    case Answer(target, answer) => Relay(st, target, WebrtcAnswer(answer, sid))
    case IceCandidate(target, candidate) => Relay(st, target, WebrtcIceCandidate(candidate, sid))
    case ScreenShare(roomId, isSharing) => Broadcast(st, sid, roomId, WebrtcScreenShare(sid, isSharing))
    case Draw(roomId, event) => Broadcast(st, sid, roomId, WhiteboardDraw(event))
    case Clear(roomId) => Broadcast(st, sid, roomId, WhiteboardClear)
    case RequestState(roomId) => Broadcast(st, sid, roomId, WhiteboardSendStateRequest(sid))
    case SendState(target, state) => Relay(st, target, WhiteboardState(state))
    case ShareFile(roomId, file, username) => Broadcast(st, sid, roomId, FileShared(file, username))
    case Chat(roomId, message, username) =>
      RoomEmit(st, roomId, ChatMessage(ChatId(sid, now), message, username, st.sockets[sid].userId, timestamp))
    case ToggleMedia(roomId, kind, enabled) => Broadcast(st, sid, roomId, MediaToggle(sid, kind, enabled))
  }

  /** `handlePeerLeave` for each room of `rooms` in turn. */
  function LeaveRooms(st: State, sid: SocketId, rooms: seq<RoomId>): (r: State)
    requires sid in st.sockets
    ensures r.sockets.Keys == st.sockets.Keys
    ensures st.sent <= r.sent && |r.sent| <= |st.sent| + |rooms|
    decreases |rooms|
  {
    if rooms == [] then st else LeaveRooms(PeerLeave(st, sid, rooms[0]), sid, rooms[1..])
  }

  /**
   * `disconnecting` as written: `handlePeerLeave` for every transport room
   * except the one named by the socket's own id; then socket.io drops the
   * socket from every room and from the live sockets.
   */
  function Disconnect(st: State, sid: SocketId): (r: State)
    requires sid in st.sockets
    ensures r.sockets.Keys == st.sockets.Keys - {sid}
    ensures st.sent <= r.sent
  {
    var left := LeaveRooms(st, sid, Erase(st.sockets[sid].rooms, sid));
    left.(sockets := left.sockets - {sid})
  }

  /**
   * `disconnecting` with every transport room left: the other rooms as written,
   * then the socket's own id room, last, so that the socket stays in that room,
   * and so out of reach of its own announcements, while the others are left.
   */
  function DisconnectFixed(st: State, sid: SocketId): (r: State)
    requires sid in st.sockets
    ensures r.sockets.Keys == st.sockets.Keys - {sid}
    ensures st.sent <= r.sent
  {
    var left := LeaveRooms(st, sid, Erase(st.sockets[sid].rooms, sid));
    var done := if sid in st.sockets[sid].rooms then PeerLeave(left, sid, sid) else left;
    done.(sockets := done.sockets - {sid})
  }
}

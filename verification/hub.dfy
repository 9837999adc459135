/**
 * The hub of backend/socket/index.js as the program runs it: one object that
 * owns the live sockets, the `activeRooms` registry and the outgoing messages,
 * and whose handlers update them in place. Every method is proved to make the
 * same step as the corresponding function of hub_model.dfy and to keep the
 * registry invariant of hub_properties.dfy.
 */
module SocketHub {
  import opened Wrappers
  import opened PeerTable
  import opened HubModel
  import HubProperties

  class Hub {
    /** The live sockets: `socket.userId` and `socket.rooms` of each. */
    var sockets: map<SocketId, Conn>
    /** `activeRooms`: room id to that room's peer table. */
    var activeRooms: map<RoomId, Table>
    /** Every emit so far, in order. */
    var sent: seq<Emission>
    /** The token verifier: the user id a valid token carries, `None` for any other token. */
    const verify: string -> Option<UserId>

    function State(): HubModel.State
      reads this
    {
      HubModel.State(sockets, activeRooms, sent)
    }

    /** The registry invariant, and no record left behind by a socket that is gone. */
    ghost predicate Valid()
      reads this
    {
      HubProperties.Inv(State()) && HubProperties.NoLeftovers(State())
    }

    constructor (verify: string -> Option<UserId>)
      ensures Valid()
      ensures State() == HubModel.State(map[], map[], [])
      ensures this.verify == verify
    {
      sockets := map[];
      activeRooms := map[];
      sent := [];
      this.verify := verify;
    }

    /**
     * The `io.use` authentication middleware followed by socket.io's connect
     * step. A rejected connection changes nothing: it is never live, so no
     * handler ever runs for it.
     */
    method Connect(sid: SocketId, token: Option<string>) returns (r: AuthResult)
      requires Valid() && HubProperties.FreshId(State(), sid)
      modifies this
      ensures Valid()
      ensures r == Authenticate(token, verify)
      ensures State() == if r.Admitted? then Admit(old(State()), sid, r.userId) else old(State())
    {
      if token == None || token.value == "" {
        return Rejected("Authentication required");
      }
      var decoded := verify(token.value);
      if decoded == None {
        return Rejected("Invalid or expired token");
      }
      ghost var st0 := State();
      sockets := sockets[sid := Conn(decoded.value, [sid])];
      r := Admitted(decoded.value);
      assert State() == Admit(st0, sid, r.userId);
      HubProperties.AdmitPreservesInv(st0, sid, r.userId);
    }

    /** One `emit` to the sockets `to`; the registry invariant does not depend on what was sent. */
    method Emit(to: set<SocketId>, e: Event)
      modifies this`sent
      ensures sent == old(sent) + Out(to, e)
      ensures old(Valid()) ==> Valid()
    {
      if to != {} {
        sent := sent + [Emission(to, e)];
      }
      assert State() == old(State()).(sent := sent);
      HubProperties.LogDoesNotMatter(old(State()), sent);
    }

    /** `room:join`. */
    method Join(sid: SocketId, room: RoomId, username: string)
      requires Valid() && sid in sockets
      modifies this
      ensures Valid()
      ensures State() == JoinRoom(old(State()), sid, room, username)
    {
      ghost var st0 := State();
      var conn := sockets[sid];
      sockets := sockets[sid := JoinTransport(conn, room)];
      var roomPeers := if room in activeRooms then activeRooms[room] else [];
      roomPeers := Set(roomPeers, Peer(conn.userId, username, sid));
      activeRooms := activeRooms[room := roomPeers];
      ghost var sent0 := sent;
      Emit({sid}, RoomExistingPeers(Without(roomPeers, sid)));
      Emit(ToOthers(sockets, sid, room), RoomPeerJoined(sid, conn.userId, username));
      assert roomPeers == Set(RoomTable(st0, room), Peer(conn.userId, username, sid));
      assert sent == sent0 + Out({sid}, RoomExistingPeers(Without(roomPeers, sid)))
                           + Out(ToOthers(sockets, sid, room), RoomPeerJoined(sid, conn.userId, username));
      assert State() == JoinRoom(st0, sid, room, username);
      HubProperties.JoinPreservesInv(st0, sid, room, username);
    }

    /** `handlePeerLeave`. */
    method HandlePeerLeave(sid: SocketId, room: RoomId)
      requires Valid() && sid in sockets
      modifies this
      ensures Valid()
      ensures State() == PeerLeave(old(State()), sid, room)
    {
      ghost var st0 := State();
      if room in activeRooms {
        var roomPeers := Without(activeRooms[room], sid);
        if |roomPeers| == 0 {
          activeRooms := activeRooms - {room};
        } else {
          activeRooms := activeRooms[room := roomPeers];
        }
      }
      ghost var registry := activeRooms;
      Emit(ToOthers(sockets, sid, room), RoomPeerLeft(sid));
      sockets := sockets[sid := LeaveTransport(sockets[sid], room)];
      assert registry == PeerLeave(st0, sid, room).activeRooms;
      assert sent == PeerLeave(st0, sid, room).sent;
      assert State() == PeerLeave(st0, sid, room);
      HubProperties.PeerLeavePreservesInv(st0, sid, room);
    }

    /** The dispatch of every `socket.on` handler except `disconnecting`. */
    method Handle(sid: SocketId, req: Request, now: nat, timestamp: string)
      requires Valid() && sid in sockets
      modifies this
      ensures Valid()
      ensures State() == HubModel.Handle(old(State()), sid, req, now, timestamp)
    {
      match req
      case Join(roomId, username) => Join(sid, roomId, username);
      case Leave(roomId) => HandlePeerLeave(sid, roomId);
      case Offer(target, offer, _, username) =>
        Emit(Members(sockets, target), WebrtcOffer(offer, sid, username));
      case Answer(target, answer) =>
        Emit(Members(sockets, target), WebrtcAnswer(answer, sid));
      case IceCandidate(target, candidate) =>
        Emit(Members(sockets, target), WebrtcIceCandidate(candidate, sid));
      case ScreenShare(roomId, isSharing) =>
        Emit(ToOthers(sockets, sid, roomId), WebrtcScreenShare(sid, isSharing));
      case Draw(roomId, event) =>
        Emit(ToOthers(sockets, sid, roomId), WhiteboardDraw(event));
      case Clear(roomId) =>
        Emit(ToOthers(sockets, sid, roomId), WhiteboardClear);
      case RequestState(roomId) =>
        Emit(ToOthers(sockets, sid, roomId), WhiteboardSendStateRequest(sid));
      case SendState(target, state) =>
        Emit(Members(sockets, target), WhiteboardState(state));
      case ShareFile(roomId, file, username) =>
        Emit(ToOthers(sockets, sid, roomId), FileShared(file, username));
      case Chat(roomId, message, username) =>
        var payload := ChatMessage(ChatId(sid, now), message, username, sockets[sid].userId, timestamp);
        Emit(Members(sockets, roomId), payload);
      case ToggleMedia(roomId, kind, enabled) =>
        Emit(ToOthers(sockets, sid, roomId), MediaToggle(sid, kind, enabled));
    }

    /**
     * `disconnecting`, with the correction described in README.md: the loop
     * leaves every transport room but the socket's own id room, as written; then
     * the own id room is left too, last, before socket.io drops the socket. The
     * loop walks the rooms as they were when it started; each `handlePeerLeave`
     * removes only the room being visited.
     */
    method Disconnect(sid: SocketId)
      requires Valid() && sid in sockets
      modifies this
      ensures Valid()
      ensures State() == DisconnectFixed(old(State()), sid)
      ensures sockets == old(sockets) - {sid}
      ensures forall r :: r in activeRooms ==> sid !in Ids(activeRooms[r])
    {
      ghost var st0 := State();
      var rooms := sockets[sid].rooms;
      var i := 0;
      while i < |rooms|
        invariant 0 <= i <= |rooms|
        invariant Valid() && sid in sockets
        invariant LeaveRooms(State(), sid, Erase(rooms[i..], sid)) == LeaveRooms(st0, sid, Erase(rooms, sid))
      {
        ghost var rest := Erase(rooms[i + 1..], sid);
        assert rooms[i..][1..] == rooms[i + 1..];
        if rooms[i] != sid {
          assert Erase(rooms[i..], sid) == [rooms[i]] + rest;
          assert ([rooms[i]] + rest)[1..] == rest;
          HandlePeerLeave(sid, rooms[i]);
        }
        i := i + 1;
      }
      if sid in rooms {
        HandlePeerLeave(sid, sid);
      }
      sockets := sockets - {sid};
      assert State() == DisconnectFixed(st0, sid);
      HubProperties.DisconnectFixedClearsRegistry(st0, sid);
    }
  }
}

/**
 * What the hub of backend/socket/index.js keeps true and what each handler
 * delivers, proved about the state machine of hub_model.dfy.
 */
module HubProperties {
  import opened Wrappers
  import opened Text
  import opened PeerTable
  import opened Seqs
  import opened HubModel

  // ---------------------------------------------------------------------------
  // The registry invariant
  // ---------------------------------------------------------------------------

  /**
   * A record agrees with the socket it names: while that socket is live it is
   * in the transport room and carries the socket's user id; once it has gone,
   * the only record it can leave behind is in the room named by its own id
   * (see `OwnRoomRecordOutlivesSocket`).
   */
  ghost predicate RecordAgrees(st: State, room: RoomId, p: Peer) {
    if p.socketId in st.sockets then
      room in st.sockets[p.socketId].rooms && p.userId == st.sockets[p.socketId].userId
    else
      room == p.socketId
  }

  /** `socket.rooms` is a `Set`: no room twice. */
  ghost predicate RoomsAreSets(st: State) {
    forall s :: s in st.sockets ==> NoDuplicates(st.sockets[s].rooms)
  }

  /** No room entry is empty, and each holds one record per socket. */
  ghost predicate EntriesWellFormed(st: State) {
    forall r :: r in st.activeRooms ==> st.activeRooms[r] != [] && UniqueIds(st.activeRooms[r])
  }

  ghost predicate RecordsAgree(st: State) {
    forall r, p :: r in st.activeRooms && p in st.activeRooms[r] ==> RecordAgrees(st, r, p)
  }

  /** A live socket in a transport room other than its own id room has a record there. */
  ghost predicate MembersRecorded(st: State) {
    forall s, r :: s in st.sockets && r in st.sockets[s].rooms && r != s ==>
      r in st.activeRooms && s in Ids(st.activeRooms[r])
  }

  /**
   * The registry invariant: no empty room entries, one record per (room,
   * socket), and the registry agreeing with transport membership.
   */
  ghost predicate Inv(st: State) {
    RoomsAreSets(st) && EntriesWellFormed(st) && RecordsAgree(st) && MembersRecorded(st)
  }

  /** Every record in the registry belongs to a live socket. */
  ghost predicate NoLeftovers(st: State) {
    forall r, p :: r in st.activeRooms && p in st.activeRooms[r] ==> p.socketId in st.sockets
  }

  /** socket.io never hands out an id that is live or that any record names. */
  ghost predicate FreshId(st: State, sid: SocketId) {
    sid !in st.sockets && forall r :: r in st.activeRooms ==> sid !in Ids(st.activeRooms[r])
  }

  lemma EmptyTableHasNoIds(t: Table)
    ensures t == [] <==> Ids(t) == {}
  {
    if t != [] {
      assert t[0].socketId in Ids(t);
    }
  }

  /** The sockets in a room are the other sockets in it, plus `sid` when it is in the room. */
  lemma MembersSplit(sockets: map<SocketId, Conn>, sid: SocketId, room: RoomId)
    requires sid in sockets
    ensures Members(sockets, room) ==
              Members(sockets - {sid}, room) + (if room in sockets[sid].rooms then {sid} else {})
  {
  }

  /**
   * While the sender is in its own id room and no other socket has joined a
   * room of that name, `socket.to(room)` reaches exactly the room's sockets
   * other than the sender.
   */
  lemma ToOthersSkipsSenderAlone(sockets: map<SocketId, Conn>, sid: SocketId, room: RoomId)
    requires sid in sockets && sid in sockets[sid].rooms
    requires forall s :: s in sockets && s != sid ==> sid !in sockets[s].rooms
    ensures ToOthers(sockets, sid, room) == Members(sockets, room) - {sid}
  {
    assert Members(sockets, sid) == {sid};
  }

  // ---------------------------------------------------------------------------
  // Connection
  // ---------------------------------------------------------------------------

  /** An admitted socket is live, in its own id room only, and the invariant still holds. */
  lemma AdmitPreservesInv(st: State, sid: SocketId, userId: UserId)
    requires Inv(st) && FreshId(st, sid)
    ensures Inv(Admit(st, sid, userId))
    ensures NoLeftovers(st) ==> NoLeftovers(Admit(st, sid, userId))
    ensures Admit(st, sid, userId).sockets[sid] == Conn(userId, [sid])
    ensures Admit(st, sid, userId).activeRooms == st.activeRooms
  {
    var st' := Admit(st, sid, userId);
    forall r, p | r in st'.activeRooms && p in st'.activeRooms[r]
      ensures RecordAgrees(st', r, p)
    {
      assert p.socketId in Ids(st.activeRooms[r]);
      assert RecordAgrees(st, r, p);
    }
  }

  // ---------------------------------------------------------------------------
  // room:join
  // ---------------------------------------------------------------------------

  /**
   * After a join the room's entry exists and holds exactly one record for the
   * joiner, `{ userId: socket.userId, username, socketId }`; the other records
   * of the room and every other room's entry are as they were, and the joiner
   * is in the transport room.
   */
  lemma JoinRegistersOnce(st: State, sid: SocketId, room: RoomId, username: string)
    requires sid in st.sockets && Inv(st)
    ensures var st' := JoinRoom(st, sid, room, username);
            var me := Peer(st.sockets[sid].userId, username, sid);
            && room in st'.activeRooms
            && me in st'.activeRooms[room]
            && (forall q :: q in st'.activeRooms[room] && q.socketId == sid ==> q == me)
            && Without(st'.activeRooms[room], sid) == Without(RoomTable(st, room), sid)
            && (forall r :: r != room ==> (r in st'.activeRooms <==> r in st.activeRooms))
            && (forall r :: r != room && r in st.activeRooms ==> st'.activeRooms[r] == st.activeRooms[r])
            && room in st'.sockets[sid].rooms
  {
    var me := Peer(st.sockets[sid].userId, username, sid);
    SetHoldsOneRecord(RoomTable(st, room), me);
    WithoutAfterSet(RoomTable(st, room), me);
  }

  /**
   * A join sends the joiner, and only the joiner, the room's records other than
   * its own. Then it announces the joiner to the sockets already in the
   * transport room, except those in the room named by the joiner's id; the
   * joiner hears its own announcement exactly when it has left its own id room
   * and joins a room of another name.
   */
  lemma JoinNotifies(st: State, sid: SocketId, room: RoomId, username: string)
    requires sid in st.sockets
    ensures var st' := JoinRoom(st, sid, room, username);
            var others := Without(RoomTable(st, room), sid);
            var to := ToOthers(st'.sockets, sid, room);
            && st'.sent == st.sent
                 + [Emission({sid}, RoomExistingPeers(others))]
                 + Out(to, RoomPeerJoined(sid, st.sockets[sid].userId, username))
            && (forall q :: q in others <==> q in RoomTable(st, room) && q.socketId != sid)
            && (forall s :: s != sid ==> (s in to <==> s in Members(st.sockets, room) && s !in Members(st.sockets, sid)))
            && (sid in to <==> room != sid && sid !in st.sockets[sid].rooms)
  {
    var st' := JoinRoom(st, sid, room, username);
    WithoutAfterSet(RoomTable(st, room), Peer(st.sockets[sid].userId, username, sid));
    assert forall s :: s in st.sockets && s != sid ==> st'.sockets[s] == st.sockets[s];
  }

  lemma JoinPreservesInv(st: State, sid: SocketId, room: RoomId, username: string)
    requires sid in st.sockets && Inv(st)
    ensures Inv(JoinRoom(st, sid, room, username))
    ensures NoLeftovers(st) ==> NoLeftovers(JoinRoom(st, sid, room, username))
  {
    var st' := JoinRoom(st, sid, room, username);
    var me := Peer(st.sockets[sid].userId, username, sid);
    SetHoldsOneRecord(RoomTable(st, room), me);
    forall r, p | r in st'.activeRooms && p in st'.activeRooms[r]
      ensures RecordAgrees(st', r, p)
    {
      if r == room && p != me {
        assert p in RoomTable(st, room) && RecordAgrees(st, r, p);
      } else if r != room {
        assert RecordAgrees(st, r, p);
      }
    }
    forall s, r | s in st'.sockets && r in st'.sockets[s].rooms && r != s
      ensures r in st'.activeRooms && s in Ids(st'.activeRooms[r])
    {
      if r == room {
        if s != sid {
          assert r in st.sockets[s].rooms;
          var q :| q in st.activeRooms[r] && q.socketId == s;
          assert q in st'.activeRooms[r];
        } else {
          assert me in st'.activeRooms[r];
        }
      } else {
        assert r in st.sockets[s].rooms;
      }
    }
  }

  // ---------------------------------------------------------------------------
  // handlePeerLeave
  // ---------------------------------------------------------------------------

  /**
   * `handlePeerLeave` removes the socket's record from the room, deletes the
   * room's entry exactly when that leaves it empty, leaves the registry as it
   * was when the room has no entry, always announces `room:peer-left` to the
   * sockets in the transport room outside the leaver's id room (whether or not
   * the leaver had joined), and takes the room out of the socket's transport
   * rooms.
   */
  lemma PeerLeaveEffect(st: State, sid: SocketId, room: RoomId)
    requires sid in st.sockets
    ensures var st' := PeerLeave(st, sid, room);
            && (room !in st.activeRooms ==> st'.activeRooms == st.activeRooms)
            && (room in st'.activeRooms <==>
                  room in st.activeRooms && Ids(st.activeRooms[room]) - {sid} != {})
            && (room in st'.activeRooms ==>
                  forall q :: q in st'.activeRooms[room] <==> q in st.activeRooms[room] && q.socketId != sid)
            && (forall r :: r != room ==> (r in st'.activeRooms <==> r in st.activeRooms))
            && (forall r :: r != room && r in st.activeRooms ==> st'.activeRooms[r] == st.activeRooms[r])
            && st'.sent == st.sent + Out(ToOthers(st.sockets, sid, room), RoomPeerLeft(sid))
            && st'.sockets.Keys == st.sockets.Keys
            && room !in st'.sockets[sid].rooms
            && (forall r :: r in st'.sockets[sid].rooms <==> r in st.sockets[sid].rooms && r != room)
            && (forall s :: s in st.sockets && s != sid ==> st'.sockets[s] == st.sockets[s])
  {
    if room in st.activeRooms {
      EmptyTableHasNoIds(Without(st.activeRooms[room], sid));
    }
  }

  lemma PeerLeavePreservesInv(st: State, sid: SocketId, room: RoomId)
    requires sid in st.sockets && Inv(st)
    ensures Inv(PeerLeave(st, sid, room))
    ensures NoLeftovers(st) ==> NoLeftovers(PeerLeave(st, sid, room))
  {
    PeerLeaveEffect(st, sid, room);
    PeerLeaveKeepsRecordsAgreeing(st, sid, room);
    PeerLeaveKeepsMembersRecorded(st, sid, room);
  }

  lemma PeerLeaveKeepsRecordsAgreeing(st: State, sid: SocketId, room: RoomId)
    requires sid in st.sockets && RecordsAgree(st)
    ensures RecordsAgree(PeerLeave(st, sid, room))
  {
    var st' := PeerLeave(st, sid, room);
    PeerLeaveEffect(st, sid, room);
    forall r, p | r in st'.activeRooms && p in st'.activeRooms[r]
      ensures RecordAgrees(st', r, p)
    {
      assert p in st.activeRooms[r] && RecordAgrees(st, r, p);
    }
  }

  lemma PeerLeaveKeepsMembersRecorded(st: State, sid: SocketId, room: RoomId)
    requires sid in st.sockets && MembersRecorded(st)
    ensures MembersRecorded(PeerLeave(st, sid, room))
  {
    PeerLeaveRegistry(st, sid, room);
    PeerLeaveSockets(st, sid, room);
    LeavingKeepsMembersRecorded(st, PeerLeave(st, sid, room), sid, room);
  }

  /** `reg` is the registry `st` leaves once `sid` leaves `room`, key by key. */
  ghost predicate LeftRegistry(st: State, reg: map<RoomId, Table>, sid: SocketId, room: RoomId) {
    && (room in reg <==> room in st.activeRooms && Ids(st.activeRooms[room]) - {sid} != {})
    && (room in reg ==> Ids(reg[room]) == Ids(st.activeRooms[room]) - {sid})
    && (forall r :: r != room ==> (r in reg <==> r in st.activeRooms))
    && (forall r :: r != room && r in st.activeRooms ==> reg[r] == st.activeRooms[r])
  }

  /** `socks` are the sockets of `st` once `sid` leaves the transport room `room`. */
  ghost predicate LeftSockets(st: State, socks: map<SocketId, Conn>, sid: SocketId, room: RoomId)
    requires sid in st.sockets
  {
    && socks.Keys == st.sockets.Keys
    && (forall s :: s in socks && s != sid ==> socks[s] == st.sockets[s])
    && (forall r :: r in socks[sid].rooms <==> r in st.sockets[sid].rooms && r != room)
  }

  /** What `handlePeerLeave` does to the registry. */
  lemma PeerLeaveRegistry(st: State, sid: SocketId, room: RoomId)
    requires sid in st.sockets
    ensures LeftRegistry(st, PeerLeave(st, sid, room).activeRooms, sid, room)
  {
    if room in st.activeRooms {
      EmptyTableHasNoIds(Without(st.activeRooms[room], sid));
    }
  }

  /** What `handlePeerLeave` does to the sockets: only the leaver loses `room`. */
  lemma PeerLeaveSockets(st: State, sid: SocketId, room: RoomId)
    requires sid in st.sockets
    ensures LeftSockets(st, PeerLeave(st, sid, room).sockets, sid, room)
  {
  }

  /** A leave that removes only the leaver's record keeps every other member recorded. */
  lemma LeavingKeepsMembersRecorded(st: State, mid: State, sid: SocketId, room: RoomId)
    requires sid in st.sockets && MembersRecorded(st)
    requires LeftRegistry(st, mid.activeRooms, sid, room) && LeftSockets(st, mid.sockets, sid, room)
    ensures MembersRecorded(mid)
  {
    forall s, r | s in mid.sockets && r in mid.sockets[s].rooms && r != s
      ensures r in mid.activeRooms && s in Ids(mid.activeRooms[r])
    {
      assert r in st.sockets[s].rooms;
      assert r in st.activeRooms && s in Ids(st.activeRooms[r]);
      if r == room {
        assert s != sid && s in Ids(st.activeRooms[room]) - {sid};
      }
    }
  }

  /** The socket has neither the transport room nor a record in its entry. */
  ghost predicate Gone(st: State, sid: SocketId, room: RoomId)
    requires sid in st.sockets
  {
    room !in st.sockets[sid].rooms && (room in st.activeRooms ==> sid !in Ids(st.activeRooms[room]))
  }

  /** Under the invariant, a socket that is not in a transport room has no record in it. */
  lemma NotInRoomMeansGone(st: State, sid: SocketId, room: RoomId)
    requires sid in st.sockets && RecordsAgree(st)
    requires room !in st.sockets[sid].rooms
    ensures Gone(st, sid, room)
  {
    if room in st.activeRooms {
      forall q | q in st.activeRooms[room]
        ensures q.socketId != sid
      {
        assert RecordAgrees(st, room, q);
      }
    }
  }

  lemma PeerLeaveGone(st: State, sid: SocketId, room: RoomId)
    requires sid in st.sockets
    ensures Gone(PeerLeave(st, sid, room), sid, room)
    ensures forall r :: Gone(st, sid, r) ==> Gone(PeerLeave(st, sid, room), sid, r)
  {
    PeerLeaveEffect(st, sid, room);
  }

  // ---------------------------------------------------------------------------
  // disconnecting
  // ---------------------------------------------------------------------------

  /**
   * The `room:peer-left` emissions of leaving `rooms` in turn, none of them the
   * socket's own id room: each goes to the sockets of `others` in that room that
   * are not in the room named by `sid`, and to the leaver itself when it is no
   * longer in its own id room (`hearsItself`).
   */
  function PeerLeftFanout(others: map<SocketId, Conn>, sid: SocketId, rooms: seq<RoomId>, hearsItself: bool): seq<Emission> {
    if rooms == [] then []
    else
      var to := Members(others, rooms[0]) - Members(others, sid) + (if hearsItself then {sid} else {});
      Out(to, RoomPeerLeft(sid)) + PeerLeftFanout(others, sid, rooms[1..], hearsItself)
  }

  /**
   * Leaving distinct rooms the socket is in, its own id room not among them,
   * changes only the leaving socket's transport rooms and emits one
   * `room:peer-left` per room, as `PeerLeftFanout` says.
   */
  lemma LeaveRoomsEffect(st: State, sid: SocketId, rooms: seq<RoomId>)
    requires sid in st.sockets
    requires NoDuplicates(rooms) && sid !in rooms
    requires forall r :: r in rooms ==> r in st.sockets[sid].rooms
    ensures var st' := LeaveRooms(st, sid, rooms);
            && st'.sockets.Keys == st.sockets.Keys
            && (forall s :: s in st.sockets && s != sid ==> st'.sockets[s] == st.sockets[s])
            && st'.sockets[sid].userId == st.sockets[sid].userId
            && st'.sent == st.sent + PeerLeftFanout(st.sockets - {sid}, sid, rooms, sid !in st.sockets[sid].rooms)
  {
    LeaveRoomsKeepsOthers(st, sid, rooms);
    LeaveRoomsFanout(st, sid, rooms);
  }

  lemma {:induction false} LeaveRoomsKeepsOthers(st: State, sid: SocketId, rooms: seq<RoomId>)
    requires sid in st.sockets
    ensures var st' := LeaveRooms(st, sid, rooms);
            && st'.sockets.Keys == st.sockets.Keys
            && (forall s :: s in st.sockets && s != sid ==> st'.sockets[s] == st.sockets[s])
            && st'.sockets[sid].userId == st.sockets[sid].userId
            && (forall x :: x !in rooms ==> (x in st'.sockets[sid].rooms <==> x in st.sockets[sid].rooms))
    decreases |rooms|
  {
    if rooms != [] {
      var mid := PeerLeave(st, sid, rooms[0]);
      assert mid.sockets == st.sockets[sid := LeaveTransport(st.sockets[sid], rooms[0])];
      LeaveRoomsKeepsOthers(mid, sid, rooms[1..]);
      forall x | x !in rooms
        ensures x !in rooms[1..] && x != rooms[0]
      {
      }
    }
  }

  /** The first step of `LeaveRoomsFanout`: what the rest of the walk starts from. */
  lemma FanoutStep(st: State, sid: SocketId, rooms: seq<RoomId>)
    requires sid in st.sockets && rooms != []
    requires NoDuplicates(rooms) && sid !in rooms
    requires forall r :: r in rooms ==> r in st.sockets[sid].rooms
    ensures var mid := PeerLeave(st, sid, rooms[0]);
            var hears := sid !in st.sockets[sid].rooms;
            && mid.sent + PeerLeftFanout(st.sockets - {sid}, sid, rooms[1..], hears)
                 == st.sent + PeerLeftFanout(st.sockets - {sid}, sid, rooms, hears)
            && mid.sockets - {sid} == st.sockets - {sid}
            && (sid !in mid.sockets[sid].rooms) == hears
            && NoDuplicates(rooms[1..]) && sid !in rooms[1..]
            && (forall r :: r in rooms[1..] ==> r in mid.sockets[sid].rooms)
  {
    FanoutStepLog(st, sid, rooms[0], rooms[1..], sid !in st.sockets[sid].rooms);
    PeerLeaveKeepsOthers(st, sid, rooms[0]);
    RoomsTail(rooms, sid);
  }

  /** Leaving a room other than the own id room changes no other socket, keeps the own id room, and keeps every other room. */
  lemma PeerLeaveKeepsOthers(st: State, sid: SocketId, room: RoomId)
    requires sid in st.sockets && room != sid
    ensures var mid := PeerLeave(st, sid, room);
            && mid.sockets - {sid} == st.sockets - {sid}
            && (sid in mid.sockets[sid].rooms <==> sid in st.sockets[sid].rooms)
            && (forall r :: r in st.sockets[sid].rooms && r != room ==> r in mid.sockets[sid].rooms)
  {
    var mid := PeerLeave(st, sid, room);
    SameOutsideKey(mid.sockets, st.sockets, sid);
  }

  /** The rest of a duplicate-free list of rooms without `sid` is again such a list, without its head. */
  lemma RoomsTail(rooms: seq<RoomId>, sid: SocketId)
    requires rooms != [] && NoDuplicates(rooms) && sid !in rooms
    ensures NoDuplicates(rooms[1..]) && sid !in rooms[1..] && rooms[0] !in rooms[1..]
  {
    forall r | r in rooms[1..]
      ensures r != rooms[0]
    {
      var j :| 0 <= j < |rooms[1..]| && rooms[1..][j] == r;
      assert rooms[j + 1] == r;
    }
  }

  /** Leaving one room the socket is in, other than its own id room, sends the head of the fanout. */
  lemma FanoutStepLog(st: State, sid: SocketId, room: RoomId, rest: seq<RoomId>, hears: bool)
    requires sid in st.sockets && room in st.sockets[sid].rooms && room != sid
    requires hears == (sid !in st.sockets[sid].rooms)
    ensures PeerLeave(st, sid, room).sent + PeerLeftFanout(st.sockets - {sid}, sid, rest, hears)
              == st.sent + PeerLeftFanout(st.sockets - {sid}, sid, [room] + rest, hears)
  {
    var others := st.sockets - {sid};
    MembersSplit(st.sockets, sid, room);
    MembersSplit(st.sockets, sid, sid);
    var first := Out(Members(others, room) - Members(others, sid) + (if hears then {sid} else {}), RoomPeerLeft(sid));
    var tail := PeerLeftFanout(others, sid, rest, hears);
    assert ToOthers(st.sockets, sid, room) == Members(others, room) - Members(others, sid) + (if hears then {sid} else {});
    assert PeerLeave(st, sid, room).sent == st.sent + first;
    assert ([room] + rest)[1..] == rest;
    assert PeerLeftFanout(others, sid, [room] + rest, hears) == first + tail;
    AppendAssociates(st.sent, first, tail);
  }

  /** Two maps that agree on every key but `k` are equal once `k` is removed. */
  lemma SameOutsideKey(m1: map<SocketId, Conn>, m2: map<SocketId, Conn>, k: SocketId)
    requires m1.Keys == m2.Keys
    requires forall s :: s in m2 && s != k ==> m1[s] == m2[s]
    ensures m1 - {k} == m2 - {k}
  {
  }

  lemma {:induction false} LeaveRoomsFanout(st: State, sid: SocketId, rooms: seq<RoomId>)
    requires sid in st.sockets
    requires NoDuplicates(rooms) && sid !in rooms
    requires forall r :: r in rooms ==> r in st.sockets[sid].rooms
    ensures LeaveRooms(st, sid, rooms).sent ==
              st.sent + PeerLeftFanout(st.sockets - {sid}, sid, rooms, sid !in st.sockets[sid].rooms)
    decreases |rooms|
  {
    if rooms != [] {
      var mid := PeerLeave(st, sid, rooms[0]);
      FanoutStep(st, sid, rooms);
      LeaveRoomsFanout(mid, sid, rooms[1..]);
      assert LeaveRooms(st, sid, rooms) == LeaveRooms(mid, sid, rooms[1..]);
    }
  }

  /** After leaving `rooms`, the socket is gone from each of them and from every room it had already gone from. */
  lemma {:induction false} LeaveRoomsGone(st: State, sid: SocketId, rooms: seq<RoomId>)
    requires sid in st.sockets
    ensures forall r :: r in rooms ==> Gone(LeaveRooms(st, sid, rooms), sid, r)
    ensures forall r :: Gone(st, sid, r) ==> Gone(LeaveRooms(st, sid, rooms), sid, r)
    decreases |rooms|
  {
    if rooms != [] {
      PeerLeaveGone(st, sid, rooms[0]);
      LeaveRoomsGone(PeerLeave(st, sid, rooms[0]), sid, rooms[1..]);
    }
  }

  lemma {:induction false} LeaveRoomsPreservesInv(st: State, sid: SocketId, rooms: seq<RoomId>)
    requires sid in st.sockets && Inv(st)
    ensures Inv(LeaveRooms(st, sid, rooms))
    ensures NoLeftovers(st) ==> NoLeftovers(LeaveRooms(st, sid, rooms))
    decreases |rooms|
  {
    if rooms != [] {
      PeerLeavePreservesInv(st, sid, rooms[0]);
      LeaveRoomsPreservesInv(PeerLeave(st, sid, rooms[0]), sid, rooms[1..]);
    }
  }

  /**
   * `disconnecting` as written: the socket is no longer live, it has no record
   * in any room other than the one named by its own id, no empty entry
   * remains, and exactly one `room:peer-left` goes out per transport room
   * other than its own id room, as `PeerLeftFanout` says: never to the leaver
   * while it is in its own id room, nor to a socket that joined a room of that
   * name.
   */
  lemma DisconnectCleansUp(st: State, sid: SocketId)
    requires sid in st.sockets && Inv(st)
    ensures var st' := Disconnect(st, sid);
            && Inv(st')
            && st'.sockets == st.sockets - {sid}
            && (forall r :: r in st'.activeRooms && r != sid ==> sid !in Ids(st'.activeRooms[r]))
            && st'.sent == st.sent + PeerLeftFanout(st.sockets - {sid}, sid, Erase(st.sockets[sid].rooms, sid),
                                                    sid !in st.sockets[sid].rooms)
  {
    var rooms := Erase(st.sockets[sid].rooms, sid);
    assert NoDuplicates(st.sockets[sid].rooms);
    LeaveAndDrop(st, sid, rooms, true);
    LeaveAndDropLog(st, sid, rooms);
  }

  /**
   * `disconnecting` with the own id room left last leaves no record of the
   * socket anywhere, so the registry never names a socket that is gone; it
   * sends exactly what the code as written sends.
   */
  lemma DisconnectFixedClearsRegistry(st: State, sid: SocketId)
    requires sid in st.sockets && Inv(st) && NoLeftovers(st)
    ensures var st' := DisconnectFixed(st, sid);
            && Inv(st') && NoLeftovers(st')
            && st'.sockets == st.sockets - {sid}
            && (forall r :: r in st'.activeRooms ==> sid !in Ids(st'.activeRooms[r]))
            && st'.sent == Disconnect(st, sid).sent
  {
    var rooms := Erase(st.sockets[sid].rooms, sid);
    var left := LeaveRooms(st, sid, rooms);
    LeaveOtherRooms(st, sid);
    if sid in st.sockets[sid].rooms {
      LeaveOwnRoom(left, sid);
    }
    var done := if sid in st.sockets[sid].rooms then PeerLeave(left, sid, sid) else left;
    DroppingGoneSocketKeepsInv(done, sid, true);
    var st' := done.(sockets := done.sockets - {sid});
    forall r | r in st'.activeRooms
      ensures sid !in Ids(st'.activeRooms[r])
    {
      assert Gone(done, sid, r);
    }
  }

  /**
   * Leaving every room but the own id room keeps the invariant, removes the
   * socket from every other room (from every room when it had left its own),
   * and changes no other socket.
   */
  lemma LeaveOtherRooms(st: State, sid: SocketId)
    requires sid in st.sockets && Inv(st) && NoLeftovers(st)
    ensures var left := LeaveRooms(st, sid, Erase(st.sockets[sid].rooms, sid));
            && sid in left.sockets && Inv(left) && NoLeftovers(left)
            && (forall r :: r != sid ==> Gone(left, sid, r))
            && (sid !in st.sockets[sid].rooms ==> forall r :: Gone(left, sid, r))
            && left.sockets - {sid} == st.sockets - {sid}
  {
    var rooms := Erase(st.sockets[sid].rooms, sid);
    var left := LeaveRooms(st, sid, rooms);
    LeaveRoomsPreservesInv(st, sid, rooms);
    LeaveRoomsClears(st, sid, rooms, {sid});
    LeaveRoomsKeepsOthers(st, sid, rooms);
    SameOutsideKey(left.sockets, st.sockets, sid);
    if sid !in st.sockets[sid].rooms {
      NotInRoomMeansGone(st, sid, sid);
      LeaveRoomsGone(st, sid, rooms);
    }
  }

  /** Leaving the own id room once every other room is left. */
  lemma LeaveOwnRoom(st: State, sid: SocketId)
    requires sid in st.sockets && Inv(st) && NoLeftovers(st)
    requires forall r :: r != sid ==> Gone(st, sid, r)
    ensures var done := PeerLeave(st, sid, sid);
            && Inv(done) && NoLeftovers(done)
            && (forall r :: Gone(done, sid, r))
            && done.sockets - {sid} == st.sockets - {sid}
            && done.sent == st.sent
  {
    PeerLeavePreservesInv(st, sid, sid);
    PeerLeaveGone(st, sid, sid);
    PeerLeaveEffect(st, sid, sid);
  }

  /**
   * Leaving `rooms` in turn, then dropping the socket, keeps the invariant and
   * takes the socket out of the registry, except possibly in its own id room
   * when that room was not among those left.
   */
  lemma LeaveAndDrop(st: State, sid: SocketId, rooms: seq<RoomId>, ownRoomKept: bool)
    requires sid in st.sockets && Inv(st)
    requires forall r :: r in st.sockets[sid].rooms ==> r in rooms || (ownRoomKept && r == sid)
    ensures var left := LeaveRooms(st, sid, rooms);
            var st' := left.(sockets := left.sockets - {sid});
            && Inv(st')
            && (!ownRoomKept && NoLeftovers(st) ==> NoLeftovers(st'))
            && (forall r :: r in st'.activeRooms && (r != sid || !ownRoomKept) ==> sid !in Ids(st'.activeRooms[r]))
  {
    var left := LeaveRooms(st, sid, rooms);
    LeaveRoomsPreservesInv(st, sid, rooms);
    LeaveRoomsClears(st, sid, rooms, if ownRoomKept then {sid} else {});
    forall r | r in left.activeRooms && (r != sid || !ownRoomKept)
      ensures sid !in Ids(left.activeRooms[r])
    {
      assert Gone(left, sid, r);
    }
    DroppingGoneSocketKeepsInv(left, sid, !ownRoomKept);
  }

  /** Leaving `rooms` in turn, then dropping the socket: what was sent, and who is still live. */
  lemma LeaveAndDropLog(st: State, sid: SocketId, rooms: seq<RoomId>)
    requires sid in st.sockets
    requires NoDuplicates(rooms) && sid !in rooms
    requires forall r :: r in rooms ==> r in st.sockets[sid].rooms
    ensures var left := LeaveRooms(st, sid, rooms);
            && left.sockets - {sid} == st.sockets - {sid}
            && left.sent == st.sent + PeerLeftFanout(st.sockets - {sid}, sid, rooms, sid !in st.sockets[sid].rooms)
  {
    LeaveRoomsEffect(st, sid, rooms);
  }

  /**
   * Leaving `rooms` in turn takes the socket out of every room it was in,
   * transport and registry alike, except the rooms `kept` that it did not visit.
   */
  lemma LeaveRoomsClears(st: State, sid: SocketId, rooms: seq<RoomId>, kept: set<RoomId>)
    requires sid in st.sockets && RecordsAgree(st)
    requires forall r :: r in st.sockets[sid].rooms ==> r in rooms || r in kept
    ensures forall r :: r !in kept ==> Gone(LeaveRooms(st, sid, rooms), sid, r)
  {
    LeaveRoomsGone(st, sid, rooms);
    forall r | r !in kept
      ensures Gone(LeaveRooms(st, sid, rooms), sid, r)
    {
      if r !in rooms {
        NotInRoomMeansGone(st, sid, r);
      }
    }
  }

  /**
   * Once a socket has gone from every room except possibly its own id room,
   * dropping it from the live sockets keeps the invariant; when it has gone
   * from that room too, no record of it is left behind.
   */
  lemma DroppingGoneSocketKeepsInv(st: State, sid: SocketId, ownRoomToo: bool)
    requires sid in st.sockets && Inv(st)
    requires forall r :: r != sid ==> Gone(st, sid, r)
    requires ownRoomToo ==> Gone(st, sid, sid)
    ensures Inv(st.(sockets := st.sockets - {sid}))
    ensures ownRoomToo && NoLeftovers(st) ==> NoLeftovers(st.(sockets := st.sockets - {sid}))
  {
    var st' := st.(sockets := st.sockets - {sid});
    forall r, p | r in st'.activeRooms && p in st'.activeRooms[r]
      ensures RecordAgrees(st', r, p)
    {
      assert RecordAgrees(st, r, p);
      if p.socketId == sid {
        assert sid in Ids(st.activeRooms[r]);
        assert !Gone(st, sid, r);
      }
    }
    if ownRoomToo && NoLeftovers(st) {
      forall r, p | r in st'.activeRooms && p in st'.activeRooms[r]
        ensures p.socketId in st'.sockets
      {
        assert p.socketId in Ids(st.activeRooms[r]);
      }
    }
  }

  /**
   * A client that joins the room named by its own socket id leaves its record
   * behind when it disconnects, because `disconnecting` skips that room.
   */
  lemma OwnRoomRecordOutlivesSocket()
    ensures var st0 := Admit(State(map[], map[], []), "s1", "u1");
            var st1 := JoinRoom(st0, "s1", "s1", "ann");
            var st2 := Disconnect(st1, "s1");
            && Inv(st1) && NoLeftovers(st1)
            && "s1" !in st2.sockets
            && "s1" in st2.activeRooms && Peer("u1", "ann", "s1") in st2.activeRooms["s1"]
            && !NoLeftovers(st2)
  {
    var st0 := Admit(State(map[], map[], []), "s1", "u1");
    var st1 := JoinRoom(st0, "s1", "s1", "ann");
    assert Inv(State(map[], map[], []));
    AdmitPreservesInv(State(map[], map[], []), "s1", "u1");
    JoinPreservesInv(st0, "s1", "s1", "ann");
    assert st1.sockets["s1"].rooms == ["s1"];
    assert Erase(["s1"], "s1") == [];
  }

  // ---------------------------------------------------------------------------
  // Directed relays
  // ---------------------------------------------------------------------------

  predicate IsRelay(req: Request) {
    req.Offer? || req.Answer? || req.IceCandidate? || req.SendState?
  }

  /**
   * Offer, answer, ICE candidate and whiteboard state go to the sockets in the
   * room named `targetSocketId` and change nothing else; the relayed
   * `fromSocketId` is the sender's own id, whatever the client claimed. A bridge
   * lemma: it reads the relay cases of `Handle` back; who is reached is the
   * business of `DirectedDelivery` and `RelayToGoneTargetIsSilent`.
   */
  lemma RelayDelivery(st: State, sid: SocketId, req: Request, now: nat, timestamp: string)
    requires sid in st.sockets && IsRelay(req)
    ensures var st' := Handle(st, sid, req, now, timestamp);
            var to := Members(st.sockets, req.targetSocketId);
            && st'.sockets == st.sockets && st'.activeRooms == st.activeRooms
            && (req.Offer? ==> st'.sent == st.sent + Out(to, WebrtcOffer(req.offer, sid, req.username)))
            && (req.Answer? ==> st'.sent == st.sent + Out(to, WebrtcAnswer(req.answer, sid)))
            && (req.IceCandidate? ==> st'.sent == st.sent + Out(to, WebrtcIceCandidate(req.candidate, sid)))
            && (req.SendState? ==> st'.sent == st.sent + Out(to, WhiteboardState(req.state)))
  {
  }

  /**
   * While no other socket has joined a room named after `target`, a directed
   * emit reaches `target` alone when it is live and still in its own id room,
   * and no socket at all otherwise.
   */
  lemma DirectedDelivery(sockets: map<SocketId, Conn>, target: SocketId)
    requires forall s :: s in sockets && target in sockets[s].rooms ==> s == target
    ensures Members(sockets, target) ==
              if target in sockets && target in sockets[target].rooms then {target} else {}
  {
  }

  /**
   * A relay to a target that is not live, and that no socket has joined as a
   * room, delivers nothing and leaves the state exactly as it was.
   */
  lemma RelayToGoneTargetIsSilent(st: State, sid: SocketId, req: Request, now: nat, timestamp: string)
    requires sid in st.sockets && IsRelay(req)
    requires req.targetSocketId !in st.sockets
    requires forall s :: s in st.sockets ==> req.targetSocketId !in st.sockets[s].rooms
    ensures Handle(st, sid, req, now, timestamp) == st
  {
    assert Members(st.sockets, req.targetSocketId) == {};
  }

  /**
   * Directed delivery rests on room ids never being socket ids: a socket that
   * joins the room named by another socket's id receives the offers a third
   * socket addresses to that socket.
   */
  lemma ForeignIdRoomReceivesRelay()
    ensures var st0 := Admit(Admit(Admit(State(map[], map[], []), "s1", "u1"), "s2", "u2"), "s3", "u3");
            var st1 := JoinRoom(st0, "s2", "s1", "eve");
            var st2 := Handle(st1, "s3", Offer("s1", "sdp", "s3", "ann"), 0, "");
            st2.sent[|st1.sent|] == Emission({"s1", "s2"}, WebrtcOffer("sdp", "s3", "ann"))
  {
    var st0 := Admit(Admit(Admit(State(map[], map[], []), "s1", "u1"), "s2", "u2"), "s3", "u3");
    var st1 := JoinRoom(st0, "s2", "s1", "eve");
    assert st1.sockets.Keys == {"s1", "s2", "s3"};
    assert st1.sockets["s1"].rooms == ["s1"];
    assert st1.sockets["s2"].rooms == ["s2", "s1"];
    assert st1.sockets["s3"].rooms == ["s3"];
    assert Members(st1.sockets, "s1") == {"s1", "s2"};
  }

  // ---------------------------------------------------------------------------
  // Room broadcasts and chat
  // ---------------------------------------------------------------------------

  predicate IsBroadcast(req: Request) {
    req.ScreenShare? || req.Draw? || req.Clear? || req.RequestState? || req.ShareFile? || req.ToggleMedia?
  }

  /**
   * Screen-share, whiteboard draw/clear/state-request, file-shared and
   * media-toggle reach every socket in the transport room outside the room
   * named by the sender's id (so never the sender while it is in its own id
   * room), with the sender's own id where the event names one, and change
   * nothing else. The registry is never consulted. A bridge lemma: it reads the
   * broadcast cases of `Handle` back; who is reached is the business of
   * `ToOthers`, `ToOthersSkipsSenderAlone` and the two examples below.
   */
  lemma BroadcastDelivery(st: State, sid: SocketId, req: Request, now: nat, timestamp: string)
    requires sid in st.sockets && IsBroadcast(req)
    ensures var st' := Handle(st, sid, req, now, timestamp);
            var to := ToOthers(st.sockets, sid, req.roomId);
            && st'.sockets == st.sockets && st'.activeRooms == st.activeRooms
            && (forall s :: s in to <==> s in st.sockets && req.roomId in st.sockets[s].rooms && sid !in st.sockets[s].rooms)
            && (req.ScreenShare? ==> st'.sent == st.sent + Out(to, WebrtcScreenShare(sid, req.isSharing)))
            && (req.Draw? ==> st'.sent == st.sent + Out(to, WhiteboardDraw(req.event)))
            && (req.Clear? ==> st'.sent == st.sent + Out(to, WhiteboardClear))
            && (req.RequestState? ==> st'.sent == st.sent + Out(to, WhiteboardSendStateRequest(sid)))
            && (req.ShareFile? ==> st'.sent == st.sent + Out(to, FileShared(req.file, req.username)))
            && (req.ToggleMedia? ==> st'.sent == st.sent + Out(to, MediaToggle(sid, req.kind, req.enabled)))
  {
  }

  /** A `room:join` of a room the socket is not yet in appends the room to its set. */
  lemma JoinAppendsRoom(st: State, sid: SocketId, room: RoomId, username: string)
    requires sid in st.sockets && room !in st.sockets[sid].rooms
    ensures var r := JoinRoom(st, sid, room, username);
            && r.sockets.Keys == st.sockets.Keys
            && r.sockets[sid].rooms == st.sockets[sid].rooms + [room]
            && forall s :: s in st.sockets && s != sid ==> r.sockets[s] == st.sockets[s]
  {
  }

  /** The members of a room when two sockets are live. */
  lemma MembersOfTwo(sockets: map<SocketId, Conn>, s1: SocketId, s2: SocketId, room: RoomId)
    requires sockets.Keys == {s1, s2}
    ensures Members(sockets, room) ==
              (if room in sockets[s1].rooms then {s1} else {}) + (if room in sockets[s2].rooms then {s2} else {})
  {
  }

  /**
   * A socket that joined the room named by another socket's id no longer hears
   * that socket's broadcasts, even in a room both have joined; with those two
   * sockets alone, a draw reaches nobody and changes nothing.
   */
  lemma IdRoomMemberMissesBroadcast(st: State, s1: SocketId, s2: SocketId, x: RoomId, line: Payload)
    requires s1 in st.sockets && s2 in st.sockets
    requires s1 in st.sockets[s1].rooms && s1 in st.sockets[s2].rooms
    requires x in st.sockets[s1].rooms && x in st.sockets[s2].rooms
    ensures var to := ToOthers(st.sockets, s1, x);
            && s1 in Members(st.sockets, x) && s2 in Members(st.sockets, x)
            && s1 !in to && s2 !in to
            && Handle(st, s1, Draw(x, line), 0, "").sent == st.sent + Out(to, WhiteboardDraw(line))
    ensures st.sockets.Keys == {s1, s2} ==> Handle(st, s1, Draw(x, line), 0, "") == st
  {
    BroadcastDelivery(st, s1, Draw(x, line), 0, "");
    if st.sockets.Keys == {s1, s2} {
      assert ToOthers(st.sockets, s1, x) == {};
    }
  }

  /**
   * The state `IdRoomMemberMissesBroadcast` speaks of is reached from no
   * sockets by two connects and three joins: `s2` joins the room named `s1`,
   * then both join `x`.
   */
  lemma IdRoomMemberReachable(s1: SocketId, s2: SocketId, x: RoomId)
    requires s1 != s2
    ensures var st0 := Admit(Admit(State(map[], map[], []), s1, "u1"), s2, "u2");
            var st1 := JoinRoom(JoinRoom(JoinRoom(st0, s2, s1, "eve"), s1, x, "ann"), s2, x, "eve");
            && st1.sockets.Keys == {s1, s2}
            && s1 in st1.sockets[s1].rooms && s1 in st1.sockets[s2].rooms
            && x in st1.sockets[s1].rooms && x in st1.sockets[s2].rooms
  {
    var st0 := Admit(Admit(State(map[], map[], []), s1, "u1"), s2, "u2");
    var a := JoinRoom(st0, s2, s1, "eve");
    JoinKeepsRooms(st0, s2, s1, "eve");
    var b := JoinRoom(a, s1, x, "ann");
    JoinKeepsRooms(a, s1, x, "ann");
    JoinKeepsRooms(b, s2, x, "eve");
  }

  /** A join keeps every room of every socket. */
  lemma JoinKeepsRooms(st: State, sid: SocketId, room: RoomId, username: string)
    requires sid in st.sockets
    ensures var r := JoinRoom(st, sid, room, username);
            forall s, y :: s in st.sockets && y in st.sockets[s].rooms ==> y in r.sockets[s].rooms
  {
  }

  /**
   * A socket that has left its own id room hears its own broadcasts: its
   * whiteboard draw comes back to it.
   */
  lemma SenderOutsideOwnRoomHearsItself(st: State, sid: SocketId, x: RoomId, line: Payload)
    requires sid in st.sockets && x in st.sockets[sid].rooms && sid !in st.sockets[sid].rooms
    ensures var st' := Handle(st, sid, Draw(x, line), 0, "");
            && |st'.sent| == |st.sent| + 1
            && st'.sent[|st.sent|].event == WhiteboardDraw(line)
            && sid in st'.sent[|st.sent|].to
  {
    BroadcastDelivery(st, sid, Draw(x, line), 0, "");
    assert sid in ToOthers(st.sockets, sid, x);
  }

  /**
   * A socket that leaves the room named by its own id and then joins `x` hears
   * its own `room:peer-joined`, and is left in the state
   * `SenderOutsideOwnRoomHearsItself` speaks of.
   */
  lemma OwnRoomLeaverHearsOwnJoin(sid: SocketId, x: RoomId, userId: UserId, username: string)
    requires x != sid
    ensures var st0 := PeerLeave(Admit(State(map[], map[], []), sid, userId), sid, sid);
            var st1 := JoinRoom(st0, sid, x, username);
            && x in st1.sockets[sid].rooms && sid !in st1.sockets[sid].rooms
            && st1.sent[|st1.sent| - 1] == Emission({sid}, RoomPeerJoined(sid, userId, username))
  {
    var admitted := Admit(State(map[], map[], []), sid, userId);
    var st0 := PeerLeave(admitted, sid, sid);
    assert sid in st0.sockets && sid !in st0.sockets[sid].rooms;
    assert st0.sockets[sid].userId == userId;
    JoinNotifies(st0, sid, x, username);
    var st1 := JoinRoom(st0, sid, x, username);
    var to := ToOthers(st1.sockets, sid, x);
    assert sid in to;
    assert Out(to, RoomPeerJoined(sid, userId, username)) == [Emission(to, RoomPeerJoined(sid, userId, username))];
    assert x in st1.sockets[sid].rooms && sid !in st1.sockets[sid].rooms;
  }

  /**
   * Chat goes to every socket in the transport room, the sender included when
   * it is in the room, with the id `socket.id + "-" + now`, the sender's
   * authenticated user id and the server's timestamp. A bridge lemma: it reads
   * the chat case of `Handle` back; the id's uniqueness is `ChatIdInjective`.
   */
  lemma ChatEchoesToRoom(st: State, sid: SocketId, room: RoomId, message: Payload, username: string,
                         now: nat, timestamp: string)
    requires sid in st.sockets
    ensures var st' := Handle(st, sid, Chat(room, message, username), now, timestamp);
            var m := ChatMessage(ChatId(sid, now), message, username, st.sockets[sid].userId, timestamp);
            && st'.sockets == st.sockets && st'.activeRooms == st.activeRooms
            && st'.sent == st.sent + Out(Members(st.sockets, room), m)
            && (room in st.sockets[sid].rooms ==>
                  st'.sent == st.sent + [Emission(Members(st.sockets, room), m)] && sid in st'.sent[|st.sent|].to)
  {
    assert room in st.sockets[sid].rooms ==> sid in Members(st.sockets, room);
  }

  /** The number of decimal digits that end `s`. */
  function DigitSuffixLength(s: string): (n: nat)
    ensures n <= |s|
  {
    if s == [] || !IsDigit(s[|s| - 1]) then 0 else 1 + DigitSuffixLength(s[..|s| - 1])
  }

  lemma {:induction false} DigitSuffixOfDashed(a: string, d: string)
    requires AllDigits(d)
    ensures DigitSuffixLength(a + "-" + d) == |d|
    decreases |d|
  {
    if d != [] {
      assert (a + "-" + d)[..|a + "-" + d| - 1] == a + "-" + d[..|d| - 1];
      DigitSuffixOfDashed(a, d[..|d| - 1]);
    }
  }

  /**
   * Chat ids are unique per (socket, millisecond): two ids are equal only when
   * both the socket id and `Date.now()` are.
   */
  lemma ChatIdInjective(s1: SocketId, n1: nat, s2: SocketId, n2: nat)
    requires ChatId(s1, n1) == ChatId(s2, n2)
    ensures s1 == s2 && n1 == n2
  {
    var d1, d2 := DecimalString(n1), DecimalString(n2);
    var id := ChatId(s1, n1);
    DigitSuffixOfDashed(s1, d1);
    DigitSuffixOfDashed(s2, d2);
    assert d1 == id[|id| - |d1|..] == d2;
    assert s1 == id[..|s1|] == s2;
    DecimalRoundTrip(n1);
    DecimalRoundTrip(n2);
  }

  // ---------------------------------------------------------------------------
  // Every handler
  // ---------------------------------------------------------------------------

  /** Every handler keeps the registry invariant, and none leaves a record of a gone socket. */
  lemma HandlePreservesInv(st: State, sid: SocketId, req: Request, now: nat, timestamp: string)
    requires sid in st.sockets && Inv(st)
    ensures Inv(Handle(st, sid, req, now, timestamp))
    ensures NoLeftovers(st) ==> NoLeftovers(Handle(st, sid, req, now, timestamp))
  {
    match req
    case Join(roomId, username) => JoinPreservesInv(st, sid, roomId, username);
    case Leave(roomId) => PeerLeavePreservesInv(st, sid, roomId);
    case _ =>
      var st' := Handle(st, sid, req, now, timestamp);
      assert st' == st.(sent := st'.sent);
      LogDoesNotMatter(st, st'.sent);
  }

  /** The invariants are about sockets and the registry only: what was sent does not matter. */
  lemma LogDoesNotMatter(st: State, log: seq<Emission>)
    ensures Inv(st.(sent := log)) == Inv(st)
    ensures NoLeftovers(st.(sent := log)) == NoLeftovers(st)
  {
    var st' := st.(sent := log);
    assert st'.sockets == st.sockets && st'.activeRooms == st.activeRooms;
    assert forall r, p :: RecordAgrees(st', r, p) == RecordAgrees(st, r, p);
  }

  /**
   * Two sockets join room "x" in turn: the second receives an existing-peers
   * list holding exactly the first one's record, and the first receives the
   * second's `room:peer-joined`.
   */
  lemma TwoPeersJoinScenario(a: SocketId, b: SocketId, x: RoomId)
    requires a != b && x != a && x != b
    ensures var st0 := Admit(Admit(State(map[], map[], []), a, "ua"), b, "ub");
            var st1 := JoinRoom(st0, a, x, "ann");
            var st2 := JoinRoom(st1, b, x, "bob");
            st2.sent == [Emission({a}, RoomExistingPeers([])),
                         Emission({b}, RoomExistingPeers([Peer("ua", "ann", a)])),
                         Emission({a}, RoomPeerJoined(b, "ub", "bob"))]
  {
    var st1 := JoinRoom(Admit(Admit(State(map[], map[], []), a, "ua"), b, "ub"), a, x, "ann");
    FirstJoinOfTwo(a, b, x);
    SecondJoinOfTwo(st1, a, b, x);
  }

  /** The first join of `TwoPeersJoinScenario`: an empty list, and nobody else told. */
  lemma FirstJoinOfTwo(a: SocketId, b: SocketId, x: RoomId)
    requires a != b && x != a && x != b
    ensures var st1 := JoinRoom(Admit(Admit(State(map[], map[], []), a, "ua"), b, "ub"), a, x, "ann");
            && st1.sockets.Keys == {a, b} && st1.sockets[a].rooms == [a, x] && st1.sockets[b] == Conn("ub", [b])
            && x in st1.activeRooms && st1.activeRooms[x] == [Peer("ua", "ann", a)]
            && st1.sent == [Emission({a}, RoomExistingPeers([]))]
  {
    var st0 := Admit(Admit(State(map[], map[], []), a, "ua"), b, "ub");
    JoinAppendsRoom(st0, a, x, "ann");
    var st1 := JoinRoom(st0, a, x, "ann");
    MembersOfTwo(st1.sockets, a, b, x);
    MembersOfTwo(st1.sockets, a, b, a);
    assert ToOthers(st1.sockets, a, x) == {};
    assert Without([Peer("ua", "ann", a)], a) == [];
  }

  /** The second join of `TwoPeersJoinScenario`, from any state of the same shape. */
  lemma SecondJoinOfTwo(st: State, a: SocketId, b: SocketId, x: RoomId)
    requires a != b && x != a && x != b
    requires st.sockets.Keys == {a, b} && st.sockets[a].rooms == [a, x] && st.sockets[b] == Conn("ub", [b])
    requires x in st.activeRooms && st.activeRooms[x] == [Peer("ua", "ann", a)]
    requires st.sent == [Emission({a}, RoomExistingPeers([]))]
    ensures JoinRoom(st, b, x, "bob").sent ==
              [Emission({a}, RoomExistingPeers([])),
               Emission({b}, RoomExistingPeers([Peer("ua", "ann", a)])),
               Emission({a}, RoomPeerJoined(b, "ub", "bob"))]
  {
    JoinAppendsRoom(st, b, x, "bob");
    var st2 := JoinRoom(st, b, x, "bob");
    assert st2.sockets[a].rooms == [a, x] && st2.sockets[b].rooms == [b, x];
    MembersOfTwo(st2.sockets, a, b, x);
    MembersOfTwo(st2.sockets, a, b, b);
    assert ToOthers(st2.sockets, b, x) == {a};
    assert Set([Peer("ua", "ann", a)], Peer("ub", "bob", b)) == [Peer("ua", "ann", a), Peer("ub", "bob", b)];
    assert Without([Peer("ua", "ann", a), Peer("ub", "bob", b)], b) == [Peer("ua", "ann", a)];
  }

}

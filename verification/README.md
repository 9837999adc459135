# Meeting hub, upload rules and error handler: a verified model

This project models three parts of a meeting application's backend:

- **The real-time room hub** (backend/socket/index.js). Sockets connect with a token. They join and leave meeting rooms and relay WebRTC signalling, whiteboard, file, chat and media-state events. The hub keeps a registry, `activeRooms`, that maps each room id to the peers that joined it.
  - `peer_table.dfy` models one registry entry: a `Map` keyed by socket id, kept in insertion order.
  - `hub_model.dfy` models every handler as a function from the hub's state before the event to its state after. The state holds:
    - the live sockets, each with its user id and its socket.io transport rooms;
    - the registry;
    - the log of every emit, with the exact set of sockets each emit reached.
  - `hub_properties.dfy` proves what the handlers promise. This includes a registry invariant that every handler keeps.
  - `hub.dfy` is the hub as the program runs it: a class whose fields the handlers update in place. Each method is proved to take the same step as the model and to keep the invariant.
- **The upload rules** (backend/middleware/upload.js), in `upload.dfy`:
  - the file-type filter, built on the POSIX form of Node's `path.extname`;
  - the stored file name;
  - the size limit, computed with `parseInt`.
- **The error handler** (backend/middleware/error.js), in `error_middleware.dfy`:
  - its successive overrides are modelled as a method;
  - the method is proved equal to a rule list read in priority order.

`text.dfy` holds the string helpers these share: ASCII case mapping, decimal rendering and `join`. `wrappers.dfy` holds `Option`.

Conventions:

- The hub runs on socket.io 4. Its transport is modelled explicitly:
  - a socket is in the room named by its own id from the moment it connects;
  - `io.to(x)` reaches every live socket in room `x` (`Members`);
  - `socket.to(x)` reaches every live socket in room `x` except those in the room named by the sender's id (`ToOthers`). So it never reaches the sender while the sender is in its own id room, and never reaches another socket that joined a room of that name;
  - `socket.emit` reaches the sender.
- An emit that reaches no socket leaves no entry in the log.
- Nothing here assumes that room ids and socket ids are distinct.

## Model

| member | source | states |
|---|---|---|
| PeerTable.Set | backend/socket/index.js:42-43 | `roomPeers.set`: the key set gains the socket id; the new record is present; keys stay unique; every record with another key is kept and nothing else is added; the length grows by one exactly when the key is new |
| PeerTable.SetAppendsNewKey | backend/socket/index.js:43 | `set` with a key the table does not hold appends the record at the end |
| PeerTable.SetOverwritesInPlace | backend/socket/index.js:43 | `set` with a key the table holds replaces that record where it stands |
| PeerTable.Without | backend/socket/index.js:46-48 | the filter `id !== socket.id` (also `roomPeers.delete`): the key set loses the id; the records kept are exactly those with other keys; keys stay unique; nothing changes when the key is absent |
| PeerTable.WithoutConcat | backend/socket/index.js:46-48 | the filter works entry by entry, so it keeps the insertion order of the records it keeps |
| PeerTable.SetHoldsOneRecord | backend/socket/index.js:43 | after a (re-)join the table holds exactly one record for the socket, the new one |
| PeerTable.WithoutAfterSet | backend/socket/index.js:43-48 | the existing-peers list equals the table before the join without the joiner: a re-join does not list the joiner's stale record |
| PeerTable.WithoutCommutes | backend/socket/index.js:178 | two peers leaving a room in either order leave the same table |
| HubModel.Members | backend/socket/index.js:70 | `io.to(room)`: exactly the live sockets whose transport rooms include `room` |
| HubModel.ToOthers | backend/socket/index.js:53 | `socket.to(room)`: only sockets in `room`; never a socket in the room named by the sender's id, so never the sender while it is in that room; nobody at all when `room` is the sender's id |
| HubModel.Erase | backend/socket/index.js:156-157 | the socket's rooms without one id: the same rooms minus that id, still duplicate-free |
| HubModel.JoinTransport | backend/socket/index.js:36 | `socket.join`: the rooms gain `room`, the user id is unchanged, the rooms stay a set |
| HubModel.LeaveTransport | backend/socket/index.js:185 | `socket.leave`: the rooms lose exactly `room`, the user id is unchanged |
| HubModel.Authenticate | backend/socket/index.js:19-28 | a missing or empty token is refused with "Authentication required"; a token the verifier rejects with "Invalid or expired token"; a socket is admitted exactly when the verifier accepts the token, and carries the id it returns |
| HubModel.Admit | backend/socket/index.js:26-30 | a connecting socket goes live with the verified user id and only its own id room; every other socket, the registry and the log are unchanged |
| HubModel.JoinRoom | backend/socket/index.js:35-60 | `room:join`: no socket comes or goes; the joiner is in the transport room; the room has an entry holding the joiner's record; the log grows by at most two entries |
| HubModel.PeerLeave | backend/socket/index.js:175-187 | `handlePeerLeave`: no socket comes or goes; the leaver is out of the transport room and has no record in the room's entry; the log grows by at most one entry |
| HubModel.Relay | backend/socket/index.js:69-91 | a directed emit changes neither sockets nor registry and adds at most one entry; with no live target and no socket in a room of that name it changes nothing |
| HubModel.Broadcast | backend/socket/index.js:94-128 | a `socket.to` emit changes neither sockets nor registry and adds at most one entry, reaching only sockets in the room |
| HubModel.RoomEmit | backend/socket/index.js:140 | an `io.to` emit changes neither sockets nor registry and adds at most one entry |
| HubModel.ChatId | backend/socket/index.js:134 | the chat id is the socket id, a '-', then digits that read back as `Date.now()` |
| HubModel.Handle | backend/socket/index.js:35-151 | no handler adds or removes a socket, and the log only grows; every handler other than join and leave also keeps sockets and registry unchanged |
| HubModel.LeaveRooms | backend/socket/index.js:155-161 | the disconnect loop keeps the set of live sockets and adds at most one entry per room |
| HubModel.Disconnect | backend/socket/index.js:155-161 | `disconnecting` as written: the socket is dropped and the log only grows |
| HubModel.DisconnectFixed | backend/socket/index.js:155-161 | the corrected loop (see Findings): the socket is dropped and the log only grows |
| HubProperties.MembersSplit | backend/socket/index.js:53 | the sockets in a room are the other sockets in it plus the sender exactly when the sender is in it |
| HubProperties.ToOthersSkipsSenderAlone | backend/socket/index.js:53 | while the sender is in its own id room and no other socket joined a room of that name, `socket.to(room)` reaches exactly the room's sockets other than the sender |
| HubProperties.AdmitPreservesInv | backend/socket/index.js:26-27 | a fresh socket goes live in its own id room only; the registry is untouched and the invariant holds |
| HubProperties.JoinRegistersOnce | backend/socket/index.js:35-43 | after `room:join` the room has an entry with exactly one record for the joiner; the other records and every other room are unchanged; the joiner is in the transport room |
| HubProperties.JoinNotifies | backend/socket/index.js:45-57 | the joiner alone receives every other record of the room; then `room:peer-joined` goes to exactly the other sockets in the room that are not in the joiner's id room, and to the joiner itself exactly when the room is not its own id and it has left its own id room |
| HubProperties.JoinPreservesInv | backend/socket/index.js:35-60 | `room:join` keeps the registry invariant and "no record of a gone socket" |
| HubProperties.PeerLeaveEffect | backend/socket/index.js:175-187 | `handlePeerLeave`: the socket's record is removed; the entry is deleted exactly when no record remains; an absent entry is not created; `room:peer-left` goes to `socket.to(room)` even when the leaver never joined; the socket leaves the transport room; nothing else changes |
| HubProperties.PeerLeavePreservesInv | backend/socket/index.js:175-187 | `handlePeerLeave` keeps the invariant and "no record of a gone socket" |
| HubProperties.PeerLeaveKeepsRecordsAgreeing | backend/socket/index.js:175-182 | every record still agrees with its socket after a leave |
| HubProperties.PeerLeaveKeepsMembersRecorded | backend/socket/index.js:175-185 | every socket in a joined room still has its record after a leave |
| HubProperties.PeerLeaveGone | backend/socket/index.js:176-185 | after a leave, the socket has neither a record in that room nor the transport room; a room already left stays left |
| HubProperties.LeaveRoomsEffect | backend/socket/index.js:155-161 | leaving in turn the distinct rooms the loop visits (never the own id room) changes no other socket and emits one `room:peer-left` per room: to the other sockets that were in that room and not in the leaver's id room, and to the leaver itself exactly when it had left its own id room |
| HubProperties.LeaveRoomsGone | backend/socket/index.js:155-161 | after the loop, the socket is gone from every room it visited |
| HubProperties.LeaveRoomsPreservesInv | backend/socket/index.js:155-161 | the loop keeps the invariant |
| HubProperties.DisconnectCleansUp | backend/socket/index.js:155-161 | `disconnecting` as written: the invariant holds; only that socket is dropped; no registry entry other than its own id room still names it; the announcements are those of `LeaveRoomsEffect` over every room but the own id room |
| HubProperties.LeaveOtherRooms | backend/socket/index.js:155-161 | leaving every room but the own id room keeps the invariant, clears the socket from every other room (from every room when it had left its own) and changes no other socket |
| HubProperties.LeaveOwnRoom | backend/socket/index.js:157-158 | leaving the own id room last, once every other room is left, clears the socket from the whole registry, keeps the invariant, and sends nothing, since `socket.to` of the own id room reaches nobody |
| HubProperties.DisconnectFixedClearsRegistry | backend/socket/index.js:155-161 | leaving every room on disconnect, the own id room last, drops only that socket, removes it from the whole registry, keeps "no record of a gone socket", and sends exactly what the code as written sends |
| HubProperties.OwnRoomRecordOutlivesSocket | backend/socket/index.js:157 | a socket that joins the room named by its own id keeps a record after it disconnects (see Findings) |
| HubProperties.RelayDelivery | backend/socket/index.js:69-91 | offer, answer and ICE candidate go to the sockets in the room named by the target id and change nothing else; `fromSocketId` is the sender's id, not the one the client sent |
| HubProperties.DirectedDelivery | backend/socket/index.js:70 | while no other socket joined a room named after the target, a directed emit reaches the target alone when it is live and still in its own id room, and no socket otherwise (a live target that left its own id room receives nothing) |
| HubProperties.RelayToGoneTargetIsSilent | backend/socket/index.js:120-122 | a relay (whiteboard state included) to a target that is not live, and whose id no live socket has joined as a room, delivers nothing and changes nothing |
| HubProperties.ForeignIdRoomReceivesRelay | backend/socket/index.js:69-75 | a socket that joined a room named by another socket's id also receives the offers a third socket addresses to that socket |
| HubProperties.BroadcastDelivery | backend/socket/index.js:94-151 | screen-share, draw, clear, state request, file and media events go to `socket.to(room)`, carry the sender's id where the event has one, and leave sockets and registry unchanged |
| HubProperties.IdRoomMemberMissesBroadcast | backend/socket/index.js:104-105 | a socket that joined the room named by another socket's id misses that socket's whiteboard draws even in a room both joined; with those two sockets alone a draw changes nothing |
| HubProperties.IdRoomMemberReachable | backend/socket/index.js:35-60 | that situation arises from two connects and three joins |
| HubProperties.SenderOutsideOwnRoomHearsItself | backend/socket/index.js:104-105 | a socket that has left its own id room receives its own whiteboard draw |
| HubProperties.OwnRoomLeaverHearsOwnJoin | backend/socket/index.js:53-57 | a socket that leaves the room named by its own id and then joins another room receives its own `room:peer-joined` |
| HubProperties.ChatEchoesToRoom | backend/socket/index.js:132-141 | a chat message reaches every socket in the room, the sender too when it is in the room; it carries the server-stamped id, the authenticated user id and the server timestamp |
| HubProperties.ChatIdInjective | backend/socket/index.js:134 | two chat ids are equal only when their sockets and their `Date.now()` values are equal |
| HubProperties.LogDoesNotMatter | backend/socket/index.js:35-151 | the invariant and "no record of a gone socket" do not depend on what was emitted |
| HubProperties.HandlePreservesInv | backend/socket/index.js:35-151 | every handler keeps the registry invariant and "no record of a gone socket" |
| HubProperties.FirstJoinOfTwo | backend/socket/index.js:35-60 | the first of two sockets to join a room receives an empty list, tells nobody, and is the room's only record |
| HubProperties.SecondJoinOfTwo | backend/socket/index.js:35-60 | the second receives a list holding exactly the first one's record, and the first alone is told of the second |
| HubProperties.TwoPeersJoinScenario | backend/socket/index.js:35-60 | when two sockets join a room in turn, the log holds exactly three emits: an empty list to the first, a list holding exactly the first one's record to the second, and `room:peer-joined` for the second to the first alone |
| SocketHub.Hub.constructor | backend/socket/index.js:5 | the hub starts with no socket, an empty registry and nothing sent |
| SocketHub.Hub.Connect | backend/socket/index.js:19-28 | the result is the middleware's decision; an admitted socket is added as in the model and a refused one changes nothing |
| SocketHub.Hub.Emit | backend/socket/index.js:45-57 | one emit appends one entry to the log exactly when it reaches a socket, and keeps the invariant |
| SocketHub.Hub.Join | backend/socket/index.js:35-60 | the in-place join takes the model's `JoinRoom` step and keeps the invariant |
| SocketHub.Hub.HandlePeerLeave | backend/socket/index.js:175-187 | the in-place leave takes the model's `PeerLeave` step and keeps the invariant |
| SocketHub.Hub.Handle | backend/socket/index.js:35-151 | each handler takes the model's step and keeps the invariant |
| SocketHub.Hub.Disconnect | backend/socket/index.js:155-161 | the disconnect loop, corrected as described under Findings (own id room left last): it takes the model's `DisconnectFixed` step, no registry entry names the socket, and the invariant holds |
| Text.Lower | backend/middleware/upload.js:21 | `toLowerCase`: same length; no upper-case letter remains; each upper-case letter becomes its own lower-case form (upper-casing it gives the letter back), and every other character is kept |
| Text.LowerIdempotent | backend/middleware/upload.js:21 | lower-casing twice is lower-casing once |
| Text.DecimalString | backend/socket/index.js:134 | the rendering of a number is non-empty, all digits, and has no leading zero |
| Text.DecimalRoundTrip | backend/middleware/upload.js:28 | reading back the decimal rendering of `n` gives `n` |
| Text.Join | backend/middleware/error.js:8 | `join` of no parts is empty; otherwise the result starts with the first part |
| Text.JoinEndsWithLast | backend/middleware/error.js:8 | a join of at least one part ends with the last part |
| Text.JoinSnoc | backend/middleware/error.js:8 | joining one more part appends the separator and that part |
| Text.JoinLength | backend/middleware/error.js:8 | the joined length is the parts' total length plus one separator between each pair |
| Upload.BaseName | backend/middleware/upload.js:14 | the last-segment step inside `path.extname`, trailing slashes ignored: no '/' in the result, no longer than the path, and a name without '/' is its own last segment |
| Upload.LastDot | backend/middleware/upload.js:21 | the position of the last '.': a '.' with no '.' after it, or none when the name has no '.' |
| Upload.ExtName | backend/middleware/upload.js:14 | `path.extname` is empty, or is a '.' followed by no other '.' and no '/' |
| Upload.ExtNameOfStemAndExtension | backend/middleware/upload.js:21 | a non-empty stem without '/' followed by an extension `.xyz` (one leading '.', no further '.' or '/') has extension `.xyz`, whatever dots the stem holds; the name `..` is excluded |
| Upload.ExtNameWithoutDot | backend/middleware/upload.js:21 | a name without '.' has no extension |
| Upload.FileFilter | backend/middleware/upload.js:19-26 | a file is refused exactly when its lower-cased extension is blocked; a refusal carries the security message, an acceptance no error |
| Upload.FinalExtensionDecides | backend/middleware/upload.js:20-23 | only the final extension decides, in any case |
| Upload.NoExtensionAccepted | backend/middleware/upload.js:19-26 | a name without '.' is accepted with no error |
| Upload.UpperCaseExtensionRefused | backend/middleware/upload.js:21-23 | any name `<stem>.EXE` whose stem is non-empty and holds no '/' (such as `RUN.EXE`) is refused |
| Upload.BlockedLastExtensionRefused | backend/middleware/upload.js:20-23 | any name ending in `.txt.exe` is refused |
| Upload.BlockedInnerExtensionAccepted | backend/middleware/upload.js:20-25 | any name ending in `.exe.txt` is accepted |
| Upload.DotFileHasNoExtension | backend/middleware/upload.js:21 | a name with one leading '.' and no other dot (such as `.exe`) has no extension |
| Upload.DotFileAccepted | backend/middleware/upload.js:21-25 | such a dot-file is accepted |
| Upload.ExtNameCommutesWithLower | backend/middleware/upload.js:21 | the extension of the lower-cased name is the lower-cased extension |
| Upload.FilterIgnoresCase | backend/middleware/upload.js:21-22 | names that differ only in letter case get the same verdict |
| Upload.UniqueSuffix | backend/middleware/upload.js:13 | the unique suffix holds only digits and '-', so no '.' or '/'; it holds a '-', and any '-' splits it back into the clock value and the random value |
| Upload.UniqueSuffixInjective | backend/middleware/upload.js:13 | two uploads with different clock or random values get different suffixes |
| Upload.StoredName | backend/middleware/upload.js:15 | the stored name is the suffix followed by the original extension, as written |
| Upload.StoredNameKeepsExtension | backend/middleware/upload.js:12-16 | the stored name ends with the original extension, case unchanged, and reading the extension back gives it |
| Upload.ParseInt | backend/middleware/upload.js:28 | `parseInt(s, 10)`: a leading digit gives a non-negative number; a first character that is no digit, sign or white space gives `NaN`; a run of digits gives its value; a '-' before digits gives the negated value |
| Upload.ParseIntOfPrefix | backend/middleware/upload.js:28 | white space, an optional sign, a run of digits, then anything that does not continue the run (such as "100MB", " 20" or "+5") parse to the signed value of the digits |
| Upload.ParseIntNotANumber | backend/middleware/upload.js:28 | white space, an optional sign, then no digit (such as "", " ", "-", "+", " x" or "-x") parse to `NaN`; with `ParseIntOfPrefix` this decides every string |
| Upload.ParseIntOfDecimal | backend/middleware/upload.js:28 | `parseInt` of a decimal rendering gives the number back |
| Upload.MaxFileSize | backend/middleware/upload.js:28-33 | the limit is a whole number of MiB: a set, non-empty value that parses gives that many MiB, and one that does not gives `NaN` |
| Upload.MaxFileSizeDefault | backend/middleware/upload.js:28-33 | an unset or empty `MAX_FILE_SIZE_MB` gives 52428800 bytes |
| Upload.MaxFileSizeOfDecimal | backend/middleware/upload.js:28-33 | the decimal `n` gives `n` MiB |
| Upload.MaxFileSizeNotANumber | backend/middleware/upload.js:28-33 | a value that starts with no digit, sign or white space gives `NaN` |
| ErrorMiddleware.DefaultStatus | backend/middleware/error.js:2 | the status is the error's own unless that is missing or zero, in which case it is 500 |
| ErrorMiddleware.DefaultMessage | backend/middleware/error.js:3 | the message is the error's own unless that is missing or empty, in which case it is 'Internal Server Error' |
| ErrorMiddleware.ValidationMessage | backend/middleware/error.js:8 | no nested errors give the empty message; a single nested message is the whole message; each further message appends ". " and that message, a missing one as nothing |
| ErrorMiddleware.Capitalize | backend/middleware/error.js:15 | same length; the first character upper-cased; the rest unchanged |
| ErrorMiddleware.DuplicateKeyMessage | backend/middleware/error.js:15 | the capitalised field followed by " already exists." |
| ErrorMiddleware.Classify | backend/middleware/error.js:1-30 | the handler throws exactly when a validation error has no `errors`, or a duplicate key has no `keyValue` key; otherwise the status is 400, 409, 500, or a non-zero status the error carries, and the stack is shown exactly in development |
| ErrorMiddleware.HandleError | backend/middleware/error.js:1-30 | the successive overrides give the same outcome as the priority-ordered rule list, for every error and environment |
| ErrorMiddleware.DefaultsKept | backend/middleware/error.js:2-3 | an error no check recognises keeps its status (or 500) and its message (or the default) |
| ErrorMiddleware.ValidationAnswers400 | backend/middleware/error.js:6-9 | a validation error answers 400 with its nested messages joined by ". " |
| ErrorMiddleware.ValidationMessageExample | backend/middleware/error.js:8 | a nested error without a message joins as an empty string |
| ErrorMiddleware.DuplicateKeyAnswers409 | backend/middleware/error.js:12-16 | code 11000 answers 409 naming the first key, capitalised, even for a validation error |
| ErrorMiddleware.CastErrorOverridesDuplicateKey | backend/middleware/error.js:12-22 | a `CastError` that carries code 11000 ends as 400 "Invalid resource ID." |
| ErrorMiddleware.CastErrorAnswers400 | backend/middleware/error.js:19-22 | every `CastError` the earlier checks let through answers 400 "Invalid resource ID." |
| ErrorMiddleware.StackOnlyInDevelopment | backend/middleware/error.js:24-29 | the stack is shown only when `NODE_ENV` is `development`; nothing else depends on the environment |

## Left out

- Logging (`console.log`, `console.error`), the socket.io server options (CORS, ping timings), the `disconnect` and `error` handlers, which only log, and the creation of the upload directory are not modelled.
- `verifySocketToken` (backend/middleware/auth.js) is not part of this model. It is a parameter `verify` that returns the user id of a valid token.
- `Date.now()`, `new Date().toISOString()` and `Math.random()` are parameters. The random part of a stored name is any natural number.
- Malformed client payloads are not modelled: every request carries the fields its handler reads, as strings.
- socket.io's own guarantee that a new socket id is fresh is a precondition (`FreshId`) of `Connect`.
- Within one emit, the order of delivery is not modelled: an emit is the set of sockets it reached.
- SocketHub.Hub.Disconnect: implements the corrected loop (see Findings), not the line as written. The as-written behaviour is `HubModel.Disconnect` with `HubProperties.DisconnectCleansUp`.
- HubProperties.DirectedDelivery: states the relay exclusivity only under the hypothesis that no other socket joined a room named after the target. `ForeignIdRoomReceivesRelay` shows that it fails without it.
- HubProperties.ChatIdInjective: chat ids are unique only when `Date.now()` differs between two messages of one socket; two messages in the same millisecond share an id.
- Letter case is ASCII only (`toLowerCase`/`toUpperCase`):
  - for the blocked extensions, this gives the same verdict as JavaScript;
  - for a capitalised duplicate-key field starting with a non-ASCII letter, the model leaves the letter unchanged.
- Only the POSIX form of `path.extname` is modelled; Windows path rules are not.
- `parseInt` white space is ASCII white space only. A `NaN` size limit is `None`; what multer then does with it is not modelled.
- The error record's fields are typed: a `statusCode` or `code` that is not a number, and an `errors` entry that is itself missing, are not modelled.
- The response write is not modelled: the handler returns the status and body it would send. A handler that throws is `Threw`; what Express does next is not modelled.
- socket.io 3 and earlier, where `socket.to(x)` excludes only the sender itself, are not modelled.
- Upload.ParseInt: returns an exact integer. JavaScript's `parseInt` returns a double, which is exact only up to 2^53 (9007199254740992); above that it rounds.
- Upload.ParseIntOfDecimal: exact for every `n` in the model; in JavaScript it holds only up to 2^53.
- Upload.MaxFileSizeOfDecimal: the multiplication by 1048576 is exact in the model; in JavaScript a limit above 2^53 bytes (8589934592 MiB) is rounded.
- The scenario lemmas (`SecondJoinOfTwo`, `IdRoomMemberMissesBroadcast`, `SenderOutsideOwnRoomHearsItself`) are stated over any state of the given shape; `IdRoomMemberReachable`, `FirstJoinOfTwo` and `OwnRoomLeaverHearsOwnJoin` show such states arise from an empty hub.

## Findings

| source | as written | input that shows it | evidently intended | confidence | as-written member | corrected member |
|---|---|---|---|---|---|---|
| backend/socket/index.js:157 | `disconnecting` calls `handlePeerLeave` for every room except the one named by the socket's own id. A client may `room:join` that room like any other, and its record there is then never removed | socket `s1` sends `room:join` with `roomId: "s1"`, then disconnects: `activeRooms` still maps `s1` to a record for the gone socket | every room the client joined is left on disconnect, so the registry names only live sockets | not executed | HubModel.Disconnect (shown by HubProperties.OwnRoomRecordOutlivesSocket) | HubModel.DisconnectFixed, which leaves the own id room last (proved by HubProperties.DisconnectFixedClearsRegistry, used by SocketHub.Hub.Disconnect) |

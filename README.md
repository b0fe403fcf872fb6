# Chat room server state, modelled in Dafny

This project models the server side of a small socket.io chat room application. Two variants of the server are modelled, and both keep their state in a few in-memory tables that every socket event handler updates in place:

- `rooms`: an ordered room list that starts as `['general']`;
- `activeNicknames`: the set of claimed nicknames;
- `users`: maps a connection id to `{nickname, room}`;
- in the newer `server.js` only, three more tables:
  - `messageIdCounter`;
  - `messageHistory`: each room's last 50 messages, each message carrying `reactions` from a symbol to a list of connection ids;
  - `messageReactions`: each connection's reaction per message id.

Each handler runs to completion before the next event is handled, so each one is a sequential method of a class whose fields are these tables:

- `Server.ChatServer` is the newer `server.js`.
- `EarlyServer.EarlyChatServer` is the earlier `index.js`. It has no nickname length check, no message ids, no history and no reactions.

Every message the transport would send is appended to a `log` field as an `Emit(target, event)`. The target is the requester alone, everyone, a whole room, or a room except the sender.

The transport's own room membership (`io.sockets.adapter.rooms`) is not modelled separately. A room counts as occupied exactly when some entry of `users` is in it (`RoomDirectory.RoomsInUse`). The `HH:mm` timestamp is a parameter of each handler.

Modules:

- `Protocol`: payloads, events, error texts and constants (the 16-character nickname limit, the 50-message cap, the `general` room).
- `MessageIds`: the `msg-<n>` ids. The decimal rendering can be read back, so distinct counter values give distinct ids.
- `RoomDirectory`: the room list, shared by both servers.
  - `GetRoomsWithCounts` is the `roomList` payload, computed by the source's counting loop.
  - `DeleteEmptyRooms` is the deletion pass, written as the source's `for...of` loop that splices the array it iterates over. It is proved equal to the recursive specification `Prune`.
  - The invariant both servers keep is `Directory`: `general` comes first, no room is listed twice, and every user's room is listed.
- `NicknameRegistry`: the nickname invariant. Nicknames in `users` are unique and claimed.
- `MessageHistory`:
  - the capped per-room log (`AppendCapped`);
  - the reaction update (`Retract`, the removal loop `RetractReaction`, `Supersede`);
  - the history invariant `HistoryValid`: at most 50 messages per room, ids issued below the counter and distinct across rooms, and every connection in at most one reaction list of a message, with no empty list.

The deletion pass is modelled as written, and it does not always delete every empty room. After it splices out a room, the next room moves into the freed slot, and the loop never reads that slot: `RoomDirectory.PruneSkipsNeighbour` shows two neighbouring empty rooms of which only the first is deleted. What is proved about the pass:

- it keeps `general` at the head;
- it deletes only rooms nobody is in, and never a room somebody is in;
- it deletes the history of every room it drops;
- when at most one room was empty, none is left: a disconnect or a room change from a state where every room was occupied leaves every room occupied.

## Model

| member | source | states |
|---|---|---|
| Server.ChatServer.constructor | server.js:12-19 | The tables start as `['general']`, no nicknames, no users, counter 0, no reactions and no history. The invariant holds and every listed room is occupied. |
| Server.ChatServer.Connect | server.js:28-29 | A new connection alone is sent the room list with the current counts. |
| Server.ChatServer.JoinRoom | server.js:32-67 | Rejections and success: (1) a nickname over 16 characters is refused to the requester alone with the length message, and no table changes; (2) a nickname already claimed is refused with the in-use message, and no table changes; (3) otherwise the nickname is claimed, `users[id]` is set, and the room is appended only if it is absent. The requester, everyone and the room's other members are told, in the source's order, and the requester gets the room's history when there is one. The invariant (unique claimed nicknames, no duplicate room, `general` first) is kept. |
| Server.ChatServer.Disconnect | server.js:70-94 | An unknown connection changes nothing. A known one has its nickname released and its entry removed, and its room is told it left. The rooms nobody is in are then pruned along with their histories, and everyone gets the new list. The invariant is kept. |
| Server.ChatServer.MoveUser | server.js:100-104 | The connection's user moves to the new room, which is appended only if absent. The invariant is kept. |
| Server.ChatServer.ChangeRoom | server.js:97-129 | The user moves, and the new room is listed if it is new. The old room is told of the leave, and the new room of the join. The connection gets the new room's history as it was before the deletion pass. Then the empty rooms are pruned with their histories, and everyone gets the new list. Nicknames, counter and reactions are unchanged. |
| Server.ChatServer.Typing | server.js:132-134 | The room's other members alone are told who is typing. |
| Server.ChatServer.Reaction | server.js:137-157 | The connection's reaction is recorded, even for an unknown message id. The whole room is told of the removed previous reaction, if any, and then of the new one. The stored message is updated as `UpdateMessageReaction` does. The invariant is kept. |
| Server.ChatServer.ChatMessage | server.js:161-169 | The message gets the id `msg-<counter>` and the counter advances. It is sent to the whole room and saved to the room's capped history. Id uniqueness and the 50-message cap are kept (for an unbounded counter; see Left out). |
| Server.ChatServer.GenerateUniqueId | server.js:221-223 | Returns `MsgId` of the counter's old value and increments the counter. |
| Server.ChatServer.SaveMessageToHistory | server.js:205-217 | The room's log becomes `AppendCapped` of the old log (empty if missing) and the message with empty reactions. No other room changes. |
| Server.ChatServer.UpdateMessageReaction | server.js:226-256 | A room with a log has the first message with the id superseded (`ReactIn`). A room without a log is left unchanged. |
| Server.ChatServer.DeleteEmptyRooms | server.js:188-203 | The room list becomes the pass `Prune` over the rooms in use, and the history of every room it drops is deleted. The invariant is kept. |
| MessageIds.MsgId | server.js:222 | An id is the `msg-` prefix followed by at least one character. |
| MessageIds.Decimal | server.js:222 | The decimal rendering is non-empty and all digits. |
| MessageIds.DecimalRoundTrip | server.js:222 | Parsing the decimal rendering of n gives back n. |
| MessageIds.IdRoundTrip | server.js:222 | The counter value can be read back from every id issued. |
| MessageIds.MsgIdInjective | server.js:17 | Two ids are equal exactly when they come from the same counter value, so successive ids are pairwise distinct while the counter keeps advancing. |
| RoomDirectory.IndexOf | server.js:196 | `indexOf` returns the first position holding the value, or -1 exactly when the value is absent. |
| RoomDirectory.RemoveAt | server.js:198 | `splice(k, 1)` removes the element at k and keeps the order of the rest: the elements before k stay in place, and each later element moves down by one. The list shrinks by one, losing exactly one occurrence of the element at k. |
| RoomDirectory.InUseIffOccupied | server.js:191 | A room is in use exactly when some user is in it. |
| RoomDirectory.GetRoomsWithCounts | server.js:173-185 | The counting loop over `users` followed by the map over `rooms` returns exactly `RoomsWithCounts`: one entry per listed room, in order, whose count is the number of users in that room (0 if none). |
| RoomDirectory.CountOf | server.js:178-183 | The count for a room, or 0 when it has none: a recorded count is read back as recorded, and a positive count is only ever read for a room that has an entry. |
| RoomDirectory.RoomsInUse | server.js:191 | The rooms with a member, standing in for the adapter's room sizes: every user's room is in use. |
| RoomDirectory.RoomsWithCounts | server.js:181-184 | The specified room list has the length of `rooms`, and entry i is room i with its number of users. |
| RoomDirectory.RoomListCountsEveryUser | server.js:173-185 | When every user's room is listed exactly once, the counts add up to the number of users. |
| RoomDirectory.PruneFrom | server.js:189-199 | The pass from position i on: rooms only move from the list to the deleted rooms (the two lengths add up to the same total), and rooms already deleted stay at the front of the deleted rooms, in order. |
| RoomDirectory.Prune | server.js:189-199 | A whole pass: the kept and deleted rooms add up to the original length, `general` at the head stays at the head, and every deleted room is neither `general` nor in use. |
| RoomDirectory.DeleteEmptyRooms | server.js:188-203 | The `for...of` loop that splices the list as it goes computes exactly `Prune`: the rooms kept and, in order, the rooms deleted. |
| RoomDirectory.PruneSound | server.js:188-203 | On a list without duplicates, the pass keeps the list duplicate-free. It deletes only listed, non-default, unoccupied rooms, and a room leaves the list exactly when it is deleted. |
| RoomDirectory.PruneFromKeepsHead | server.js:190 | `general` at the head of the list is never deleted and stays at the head. |
| RoomDirectory.PruneFromConserves | server.js:196-199 | The pass only moves rooms from the list to the deleted rooms: the two multisets together equal the original list. |
| RoomDirectory.PruneClearsSingleEmpty | server.js:188-203 | If at most one listed room other than `general` is unoccupied, the pass leaves every listed room occupied. |
| RoomDirectory.PruneSkipsNeighbour | server.js:189-198 | On `[general, a, b]` with both rooms empty, only `a` is deleted, and the empty `b` stays listed. |
| RoomDirectory.PruneKeepsDirectory | server.js:188-203 | The pass keeps the room-list invariant, and every room it deletes was listed, is not `general`, and has no user. |
| RoomDirectory.AppendKeepsNoDup | server.js:49-51 | Appending an absent room keeps the list free of duplicates. |
| RoomDirectory.DistinctIsNoDup | server.js:49-51 | The head-first and the counting definitions of "no duplicates" agree. |
| RoomDirectory.JoinKeepsDirectory | server.js:46-51 | Recording or moving a user, with its room appended if absent, keeps the room-list invariant. |
| RoomDirectory.LeaveKeepsDirectory | server.js:86 | Deleting a user keeps the room-list invariant. |
| RoomDirectory.JoinKeepsOccupied | server.js:44-51 | A join from a new connection keeps every listed room occupied. |
| RoomDirectory.LeaveEmptiesAtMostOne | server.js:86 | When one user leaves or moves, only its former room can become empty. |
| RoomDirectory.LeaveThenPruneSettles | server.js:70-94 | After a disconnect from a state where every room is occupied, the deletion pass leaves every room occupied. |
| RoomDirectory.MoveThenPruneSettles | server.js:97-129 | After a room change from a state where every room is occupied, the deletion pass leaves every room occupied. |
| NicknameRegistry.ClaimKeepsRegistered | server.js:38-46 | Claiming an unclaimed nickname and recording the user keeps nicknames unique and claimed. |
| NicknameRegistry.ReleaseKeepsRegistered | server.js:73-86 | Releasing the leaving user's nickname and deleting its entry keeps the others unique and claimed. |
| NicknameRegistry.MoveKeepsRegistered | server.js:100 | Changing a user's room leaves the nickname invariant intact. |
| MessageHistory.HistoryOf | server.js:206-210 | The room's log when it has one; a room without an entry reads as the empty log. |
| MessageHistory.AppendCapped | server.js:205-217 | The message goes last. Below the cap, the log just grows. At the cap, the oldest entry is dropped and the length stays the same. A log within the cap stays within it. |
| MessageHistory.OldestEvicted | server.js:214-216 | At 50 messages, saving one more drops exactly the oldest one: the rest keep their order, and the dropped id is no longer present. |
| MessageHistory.SaveKeepsHistoryValid | server.js:161-167 | Saving a message stamped with the current counter, then advancing the counter, keeps the cap, the distinct ids and well-formed reactions. |
| MessageHistory.SaveKeepsIds | server.js:163-167 | Saving keeps ids distinct across all rooms, and every id below the advanced counter. |
| MessageHistory.DropKeepsHistoryValid | server.js:194 | Deleting the logs of some rooms keeps the history invariant. |
| MessageHistory.Without | server.js:242 | The filter leaves out the connection and keeps every other id. |
| MessageHistory.WithoutCounts | server.js:242 | The filter removes every occurrence of the connection and keeps every other id as often as before. |
| MessageHistory.Retract | server.js:240-247 | After the removal, the connection is in no list; no symbol is added; a list without the connection is kept unchanged. |
| MessageHistory.RetractCounts | server.js:240-247 | In every list, the removal takes out every occurrence of the connection and keeps every other connection exactly as often as before. A list is deleted only when the connection was all it held. |
| MessageHistory.Supersede | server.js:240-253 | After the update, the connection is the last entry of the new symbol's list and in no other list, and the symbols are those left by `Retract` plus the new one. |
| MessageHistory.RetractReaction | server.js:240-247 | The removal loop computes `Retract`: every list holding the connection is filtered, and a list left empty is deleted. |
| MessageHistory.SupersedeCounts | server.js:240-253 | After the update, the connection appears once, in the list of the new symbol. Every other connection appears as often as before in every list. |
| MessageHistory.SupersedeWellFormed | server.js:240-253 | From well-formed reactions, the update leaves the connection in exactly one list, the new symbol's, with no empty list left. |
| MessageHistory.SupersedeIdempotent | server.js:240-253 | Reacting twice with the same symbol gives the same reactions as reacting once. |
| MessageHistory.FindIndex | server.js:229 | `findIndex` returns the first message with the id, or -1 when none has it. |
| MessageHistory.ReactIn | server.js:226-256 | The update keeps the log's length, and leaves a log without the id unchanged. |
| MessageHistory.ReactInEffect | server.js:226-256 | The reaction update changes the reactions of the first message with the id only. No payload changes, and a log without the id is unchanged. |
| MessageHistory.ReactKeepsHistoryValid | server.js:226-256 | Updating a reaction in a room's log keeps the history invariant. |
| EarlyServer.EarlyChatServer.constructor | index.js:10-12 | The tables start as `['general']`, no nicknames and no users. The invariant holds. |
| EarlyServer.EarlyChatServer.Connect | index.js:21-22 | A new connection alone is sent the room list. |
| EarlyServer.EarlyChatServer.JoinRoom | index.js:25-50 | A claimed nickname is refused, and no table changes. Any other nickname, of any length, is claimed and `users[id]` recorded, and the room is appended only if absent. The three notices follow. The invariant is kept. |
| EarlyServer.EarlyChatServer.Disconnect | index.js:53-77 | An unknown connection changes nothing. A known one has its nickname and entry removed, and the rooms are pruned. Afterwards the connection is absent, so a second disconnect changes nothing. |
| EarlyServer.EarlyChatServer.MoveUser | index.js:83-87 | The user moves, and the new room is appended only if absent. The invariant is kept. |
| EarlyServer.EarlyChatServer.ChangeRoom | index.js:80-107 | Move, notices to the old and the new room, deletion pass, and a new room list for everyone. Nicknames are unchanged. |
| EarlyServer.EarlyChatServer.DeleteEmptyRooms | index.js:133-145 | The room list becomes `Prune` over the rooms in use, and the invariant is kept. |
| EarlyServer.EarlyChatServer.ChatMessage | index.js:110-114 | The message, without an id, is sent to the whole room. Nothing is stored. |

## Left out

- The socket.io, express and http plumbing are not modelled: serving static files, `server.listen`, `maxHttpBufferSize`, and the per-connection socket rooms. Emits are recorded in `log` instead.
- Transport occupancy is derived from `users`. Three cases make the adapter's occupancy differ from `users`:
  - a second `joinRoom` from the same connection, which joins a second room without leaving the first;
  - a `changeRoom` whose `oldRoom` is not the user's room;
  - a room named after a live connection's id. socket.io puts every socket in a room named by its own id, and those ids reach clients through the reaction lists in replayed history. The source never deletes such a room while that connection is live; the model prunes it once no user is in it.
- `moment().format('HH:mm')` is a `time` parameter, and `console.log` is left out.
- Server.ChatServer.JoinRoom: the length limit counts Dafny characters, while JavaScript's `length` counts UTF-16 code units. Nicknames outside the Basic Multilingual Plane can therefore differ by one per character.
- Server.ChatServer.ChangeRoom: requires a joined connection, because the source dereferences `users[socket.id]` without a check and throws before changing any table.
- EarlyServer.EarlyChatServer.ChangeRoom: requires a joined connection, for the same reason.
- Server.ChatServer.Disconnect: does not promise that every remaining room is occupied, because the deletion pass can skip a room. `RoomDirectory.LeaveThenPruneSettles` proves it for states where every room was occupied.
- Server.ChatServer.JoinRoom: a second join from the same connection replaces its `users` entry without releasing the first nickname. This is modelled as written, and the invariant states only that every user's nickname is claimed, not that every claimed nickname has a user.
- Plain JavaScript objects used as maps (`users`, `roomCounts`, `reactions`) are modelled as Dafny maps. Keys such as `__proto__` or inherited property names are not modelled.
- Reactions: the enumeration order of the symbols in a message's reactions is not modelled.
- `messageReactions` is not cross-checked against the history; the source never reads one from the other.
- Concurrency is not modelled: Node runs one handler at a time.
- Server.ChatServer.GenerateUniqueId: the counter is an unbounded integer. In the source it is a JavaScript number, and from 2^53 on `messageIdCounter++` no longer changes it, so every later message gets the same id. The model's counter advances forever.
- Server.ChatServer.ChatMessage: id uniqueness (`DistinctIds` in the history invariant) holds only because the counter is unbounded. After 2^53 messages the source would store repeated ids.

/**
 The newer chat server (server.js): module-level tables that every socket
 event handler updates in place, modelled as the fields of one object whose
 methods are the handlers. Each handler runs to completion before the next
 event is delivered, so each is one sequential method.

 What the transport would send is appended to `log`. The transport's room
 membership is derived from `users`; the timestamp is a parameter.
 */
module Server {
  import opened Protocol
  import opened MessageIds
  import opened RoomDirectory
  import opened NicknameRegistry
  import opened MessageHistory

  /** The server's tables at one moment, for stating what a handler leaves alone. */
  datatype Tables = Tables(
    rooms: seq<string>,
    activeNicknames: set<string>,
    users: map<ConnId, User>,
    messageIdCounter: nat,
    messageReactions: map<string, map<ConnId, string>>,
    messageHistory: map<string, seq<Entry>>)

  /** The reaction each connection has on a message, as recorded by the reaction handler. */
  function ReactionsOf(messageReactions: map<string, map<ConnId, string>>, messageId: string): map<ConnId, string>
  {
    if messageId in messageReactions then messageReactions[messageId] else map[]
  }

  class ChatServer {
    var rooms: seq<string>
    var activeNicknames: set<string>
    var users: map<ConnId, User>
    var messageIdCounter: nat
    var messageReactions: map<string, map<ConnId, string>>
    var messageHistory: map<string, seq<Entry>>
    var log: seq<Emit>

    function Snapshot(): Tables
      reads this
    {
      Tables(rooms, activeNicknames, users, messageIdCounter, messageReactions, messageHistory)
    }

    /**
     The invariants every handler keeps: the default room heads a room list
     without duplicates that holds every user's room; nicknames are claimed
     and unique; each room's history holds at most `MaxHistory` messages with
     ids issued below the counter and distinct across rooms; a connection
     asserts at most one reaction per stored message.
     */
    ghost predicate Valid()
      reads this`rooms, this`activeNicknames, this`users, this`messageIdCounter, this`messageHistory
    {
      Directory(rooms, users) && Registered(users, activeNicknames) && HistoryValid(messageHistory, messageIdCounter)
    }

    /** The tables at start-up. */
    constructor ()
      ensures Valid()
      ensures AllOccupied(rooms, RoomsInUse(users))
      ensures Snapshot() == Tables([General], {}, map[], 0, map[], map[])
      ensures log == []
    {
      rooms := [General];
      activeNicknames := {};
      users := map[];
      messageIdCounter := 0;
      messageReactions := map[];
      messageHistory := map[];
      log := [];
      new;
      assert rooms[1..] == [];
      assert Distinct(rooms[1..]);
      assert Directory(rooms, users);
      assert HistoryValid(messageHistory, messageIdCounter);
    }

    /** A new connection is sent the current room list. */
    method Connect(id: ConnId)
      requires Valid()
      modifies this`log
      ensures log == old(log) + [Emit(ToConn(id), RoomList(RoomsWithCounts(rooms, users)))]
    {
      var list := GetRoomsWithCounts(rooms, users);
      log := log + [Emit(ToConn(id), RoomList(list))];
    }

    /**
     `joinRoom`: a nickname longer than 16 characters or already claimed is
     refused to the requester alone and changes no table. Otherwise the
     nickname is claimed, the user recorded, the room added to the list if it
     is new, and the requester, everyone and the room's other members are
     told, the requester also receiving the room's history if it has one.
     */
    method JoinRoom(id: ConnId, nickname: string, room: string, time: string)
      requires Valid()
      modifies this
      ensures Valid()
      ensures |nickname| > MaxNicknameLength ==>
        Snapshot() == old(Snapshot()) && log == old(log) + [Emit(ToConn(id), NicknameError(NicknameTooLongError))]
      ensures |nickname| <= MaxNicknameLength && nickname in old(activeNicknames) ==>
        Snapshot() == old(Snapshot()) && log == old(log) + [Emit(ToConn(id), NicknameError(NicknameInUseError))]
      ensures |nickname| <= MaxNicknameLength && nickname !in old(activeNicknames) ==>
        activeNicknames == old(activeNicknames) + {nickname}
      ensures |nickname| <= MaxNicknameLength && nickname !in old(activeNicknames) ==>
        users == old(users)[id := User(nickname, room)]
      ensures |nickname| <= MaxNicknameLength && nickname !in old(activeNicknames) ==>
        rooms == (if room in old(rooms) then old(rooms) else old(rooms) + [room])
      ensures |nickname| <= MaxNicknameLength && nickname !in old(activeNicknames) ==>
        && messageIdCounter == old(messageIdCounter)
        && messageReactions == old(messageReactions)
        && messageHistory == old(messageHistory)
      ensures |nickname| <= MaxNicknameLength && nickname !in old(activeNicknames) ==>
        log == old(log) + [
             Emit(ToConn(id), NicknameAccepted),
             Emit(Everyone, RoomList(RoomsWithCounts(rooms, users))),
             Emit(RoomExcept(room, id), Message(SystemMessage(JoinedNotice(nickname), time)))]
           + (if room in messageHistory then [Emit(ToConn(id), HistoryReplay(messageHistory[room]))] else [])
    {
      if |nickname| > MaxNicknameLength {
        log := log + [Emit(ToConn(id), NicknameError(NicknameTooLongError))];
        return;
      }
      if nickname in activeNicknames {
        log := log + [Emit(ToConn(id), NicknameError(NicknameInUseError))];
        return;
      }
      ClaimKeepsRegistered(users, activeNicknames, id, nickname, room);
      JoinKeepsDirectory(rooms, users, id, User(nickname, room));
      activeNicknames := activeNicknames + {nickname};
      var accepted := Emit(ToConn(id), NicknameAccepted);
      users := users[id := User(nickname, room)];
      if room !in rooms {
        rooms := rooms + [room];
      }
      var list := GetRoomsWithCounts(rooms, users);
      var notices := [
        accepted,
        Emit(Everyone, RoomList(list)),
        Emit(RoomExcept(room, id), Message(SystemMessage(JoinedNotice(nickname), time)))];
      if room in messageHistory {
        notices := notices + [Emit(ToConn(id), HistoryReplay(messageHistory[room]))];
      }
      log := log + notices;
    }

    /** `generateUniqueId`: the id made from the counter, which then advances. */
    method GenerateUniqueId() returns (id: string)
      modifies this`messageIdCounter
      ensures id == MsgId(old(messageIdCounter))
      ensures messageIdCounter == old(messageIdCounter) + 1
    {
      id := MsgId(messageIdCounter);
      messageIdCounter := messageIdCounter + 1;
    }

    /**
     `saveMessageToHistory`: the message, without reactions, goes at the end
     of its room's log, which is created when missing and loses its oldest
     message when it grows past `MaxHistory`.
     */
    method SaveMessageToHistory(room: string, data: MessageData)
      modifies this`messageHistory
      ensures messageHistory == old(messageHistory)[room := AppendCapped(HistoryOf(old(messageHistory), room), Entry(data, map[]))]
    {
      if room !in messageHistory {
        messageHistory := messageHistory[room := []];
      }
      var roomHistory := messageHistory[room] + [Entry(data, map[])];
      if |roomHistory| > MaxHistory {
        roomHistory := roomHistory[1..];
      }
      messageHistory := messageHistory[room := roomHistory];
    }

    /**
     `updateMessageReaction`: in the room's log, the first message with the
     id has the connection's reactions retracted and the new one appended.
     A room without a log, or a log without the message, is left alone.
     */
    method UpdateMessageReaction(messageId: string, room: string, reaction: string, socketId: ConnId)
      modifies this`messageHistory
      ensures messageHistory == if room in old(messageHistory)
        then old(messageHistory)[room := ReactIn(old(messageHistory)[room], messageId, socketId, reaction)]
        else old(messageHistory)
    {
      if room in messageHistory {
        var history := messageHistory[room];
        var messageIndex := FindIndex(history, messageId);
        assert messageIndex == IndexOf(Ids(history), Some(messageId));
        if messageIndex != -1 {
          var message := history[messageIndex];
          var reactions := RetractReaction(message.reactions, socketId);
          if reaction !in reactions {
            reactions := reactions[reaction := []];
          }
          reactions := reactions[reaction := reactions[reaction] + [socketId]];
          assert reactions == Supersede(message.reactions, socketId, reaction);
          messageHistory := messageHistory[room := history[messageIndex := message.(reactions := reactions)]];
        }
      }
    }

    /**
     `deleteEmptyRooms`: the deletion pass over the rooms nobody is in, which
     also deletes the log of every room it removes.
     */
    method DeleteEmptyRooms()
      requires Valid()
      modifies this`rooms, this`messageHistory
      ensures Valid()
      ensures var p := Prune(old(rooms), RoomsInUse(users));
        rooms == p.rooms && messageHistory == old(messageHistory) - (set r | r in p.dropped)
    {
      PruneKeepsDirectory(rooms, users);
      DropKeepsHistoryValid(messageHistory, messageIdCounter, set r | r in Prune(rooms, RoomsInUse(users)).dropped);
      var kept, dropped := RoomDirectory.DeleteEmptyRooms(rooms, RoomsInUse(users));
      rooms := kept;
      messageHistory := messageHistory - (set r | r in dropped);
    }

    /**
     `disconnect`: a connection that never joined changes nothing. Otherwise
     its nickname is released, its room told that it left, its entry
     removed, the empty rooms deleted with their logs, and everyone sent the
     new room list.
     */
    method Disconnect(id: ConnId, time: string)
      requires Valid()
      modifies this
      ensures Valid()
      ensures id !in old(users) ==> Snapshot() == old(Snapshot()) && log == old(log)
      ensures id in old(users) ==>
        && activeNicknames == old(activeNicknames) - {old(users)[id].nickname}
        && users == old(users) - {id}
      ensures id in old(users) ==>
        var p := Prune(old(rooms), RoomsInUse(old(users) - {id}));
        rooms == p.rooms && messageHistory == old(messageHistory) - (set r | r in p.dropped)
      ensures messageIdCounter == old(messageIdCounter) && messageReactions == old(messageReactions)
      ensures id in old(users) ==>
        log == old(log) + [
          Emit(RoomExcept(old(users)[id].room, id), Message(SystemMessage(LeftChatNotice(old(users)[id].nickname), time))),
          Emit(Everyone, RoomList(RoomsWithCounts(rooms, users)))]
    {
      if id !in users {
        return;
      }
      var user := users[id];
      ReleaseKeepsRegistered(users, activeNicknames, id);
      LeaveKeepsDirectory(rooms, users, id);
      activeNicknames := activeNicknames - {user.nickname};
      var left := Emit(RoomExcept(user.room, id), Message(SystemMessage(LeftChatNotice(user.nickname), time)));
      users := users - {id};
      DeleteEmptyRooms();
      var list := GetRoomsWithCounts(rooms, users);
      log := log + [left, Emit(Everyone, RoomList(list))];
    }

    /** The table updates of `changeRoom`: the user moves, and a new room is listed. */
    method MoveUser(id: ConnId, newRoom: string)
      requires Valid() && id in users
      modifies this`users, this`rooms
      ensures Valid()
      ensures users == old(users)[id := old(users)[id].(room := newRoom)]
      ensures rooms == if newRoom in old(rooms) then old(rooms) else old(rooms) + [newRoom]
    {
      var moved := users[id].(room := newRoom);
      MoveKeepsRegistered(users, activeNicknames, id, newRoom);
      JoinKeepsDirectory(rooms, users, id, moved);
      users := users[id := moved];
      if newRoom !in rooms {
        rooms := rooms + [newRoom];
      }
    }

    /**
     `changeRoom`: the connection's user moves to `newRoom`, which is listed
     if new; `oldRoom` is told it left and `newRoom` that it joined, the
     connection gets `newRoom`'s log if there is one, the empty rooms are
     deleted with their logs, and everyone is sent the new room list. The
     handler presumes a joined connection.
     */
    method ChangeRoom(id: ConnId, nickname: string, newRoom: string, oldRoom: string, time: string)
      requires Valid() && id in users
      modifies this
      ensures Valid()
      ensures users == old(users)[id := old(users)[id].(room := newRoom)]
      ensures var grown := if newRoom in old(rooms) then old(rooms) else old(rooms) + [newRoom];
        var p := Prune(grown, RoomsInUse(users));
        rooms == p.rooms && messageHistory == old(messageHistory) - (set r | r in p.dropped)
      ensures && activeNicknames == old(activeNicknames)
              && messageIdCounter == old(messageIdCounter)
              && messageReactions == old(messageReactions)
      ensures log == old(log) + [
          Emit(RoomExcept(oldRoom, id), Message(SystemMessage(LeftRoomNotice(nickname), time))),
          Emit(RoomExcept(newRoom, id), Message(SystemMessage(JoinedNotice(nickname), time)))]
        + (if newRoom in old(messageHistory) then [Emit(ToConn(id), HistoryReplay(old(messageHistory)[newRoom]))] else [])
        + [Emit(Everyone, RoomList(RoomsWithCounts(rooms, users)))]
    {
      MoveUser(id, newRoom);
      var notices := [
        Emit(RoomExcept(oldRoom, id), Message(SystemMessage(LeftRoomNotice(nickname), time))),
        Emit(RoomExcept(newRoom, id), Message(SystemMessage(JoinedNotice(nickname), time)))];
      if newRoom in messageHistory {
        notices := notices + [Emit(ToConn(id), HistoryReplay(messageHistory[newRoom]))];
      }
      DeleteEmptyRooms();
      var list := GetRoomsWithCounts(rooms, users);
      log := log + notices + [Emit(Everyone, RoomList(list))];
    }

    /** `typing`: the room's other members are told who is typing. */
    method Typing(id: ConnId, nickname: string, room: string)
      modifies this`log
      ensures log == old(log) + [Emit(RoomExcept(room, id), TypingNotice(nickname))]
    {
      log := log + [Emit(RoomExcept(room, id), TypingNotice(nickname))];
    }

    /**
     `reaction`: the room is told that the connection's previous reaction to
     the message, if any, is removed and that the new one is added; the
     connection's reaction is recorded and the stored message updated.
     */
    method Reaction(id: ConnId, messageId: string, reaction: string, room: string)
      requires Valid()
      modifies this
      ensures Valid()
      ensures messageReactions == old(messageReactions)[messageId := ReactionsOf(old(messageReactions), messageId)[id := reaction]]
      ensures messageHistory == if room in old(messageHistory)
        then old(messageHistory)[room := ReactIn(old(messageHistory)[room], messageId, id, reaction)]
        else old(messageHistory)
      ensures && rooms == old(rooms) && activeNicknames == old(activeNicknames) && users == old(users)
              && messageIdCounter == old(messageIdCounter)
      ensures var previous := ReactionsOf(old(messageReactions), messageId);
        log == old(log)
          + (if id in previous then [Emit(Room(room), ReactionRemoved(messageId, previous[id]))] else [])
          + [Emit(Room(room), ReactionAdded(messageId, reaction))]
    {
      var userReactions := ReactionsOf(messageReactions, messageId);
      var notices := [];
      if id in userReactions {
        notices := [Emit(Room(room), ReactionRemoved(messageId, userReactions[id]))];
      }
      messageReactions := messageReactions[messageId := userReactions[id := reaction]];
      log := log + notices + [Emit(Room(room), ReactionAdded(messageId, reaction))];
      if room in messageHistory {
        ReactKeepsHistoryValid(messageHistory, messageIdCounter, room, messageId, id, reaction);
      }
      UpdateMessageReaction(messageId, room, reaction, id);
    }

    /**
     `chatMessage`: the message gets the next id, is sent to the whole room,
     sender included, and is saved to the room's log.
     */
    method ChatMessage(nickname: string, room: string, message: Option<string>, image: Option<string>, time: string)
      requires Valid()
      modifies this
      ensures Valid()
      ensures var data := MessageData(Some(MsgId(old(messageIdCounter))), nickname, message, image, time);
        && messageIdCounter == old(messageIdCounter) + 1
        && messageHistory == old(messageHistory)[room := AppendCapped(HistoryOf(old(messageHistory), room), Entry(data, map[]))]
        && log == old(log) + [Emit(Room(room), Message(data))]
      ensures && rooms == old(rooms) && activeNicknames == old(activeNicknames) && users == old(users)
              && messageReactions == old(messageReactions)
    {
      ghost var before, counter := messageHistory, messageIdCounter;
      var id := GenerateUniqueId();
      var data := MessageData(Some(id), nickname, message, image, time);
      SaveKeepsHistoryValid(before, counter, room, data);
      log := log + [Emit(Room(room), Message(data))];
      SaveMessageToHistory(room, data);
    }
  }
}

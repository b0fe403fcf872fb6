/**
 The earlier chat server (index.js): the same room list, nickname set and
 user table as the newer one, without message ids, history or reactions,
 and without the nickname length check. Handlers are the methods of one
 object; what the transport would send is appended to `log`, and the
 transport's room membership is derived from `users`.
 */
module EarlyServer {
  import opened Protocol
  import opened RoomDirectory
  import opened NicknameRegistry

  /** The server's tables at one moment. */
  datatype EarlyTables = EarlyTables(rooms: seq<string>, activeNicknames: set<string>, users: map<ConnId, User>)

  class EarlyChatServer {
    var rooms: seq<string>
    var activeNicknames: set<string>
    var users: map<ConnId, User>
    var log: seq<Emit>

    function Snapshot(): EarlyTables
      reads this
    {
      EarlyTables(rooms, activeNicknames, users)
    }

    /**
     The invariants every handler keeps: the default room heads a room list
     without duplicates that holds every user's room, and nicknames are
     claimed and unique.
     */
    ghost predicate Valid()
      reads this`rooms, this`activeNicknames, this`users
    {
      Directory(rooms, users) && Registered(users, activeNicknames)
    }

    /** The tables at start-up. */
    constructor ()
      ensures Valid()
      ensures AllOccupied(rooms, RoomsInUse(users))
      ensures Snapshot() == EarlyTables([General], {}, map[])
      ensures log == []
    {
      rooms := [General];
      activeNicknames := {};
      users := map[];
      log := [];
      new;
      assert rooms[1..] == [];
      assert Distinct(rooms[1..]);
    }

    /** A new connection is sent the current room list. */
    method Connect(id: ConnId)
      modifies this`log
      ensures log == old(log) + [Emit(ToConn(id), RoomList(RoomsWithCounts(rooms, users)))]
    {
      var list := GetRoomsWithCounts(rooms, users);
      log := log + [Emit(ToConn(id), RoomList(list))];
    }

    /**
     `joinRoom`: a nickname already claimed is refused to the requester alone
     and changes no table; any other nickname, of any length, is claimed,
     the user recorded, the room listed if new, and the requester, everyone
     and the room's other members told.
     */
    method JoinRoom(id: ConnId, nickname: string, room: string, time: string)
      requires Valid()
      modifies this
      ensures Valid()
      ensures nickname in old(activeNicknames) ==>
        Snapshot() == old(Snapshot()) && log == old(log) + [Emit(ToConn(id), NicknameError(NicknameInUseError))]
      ensures nickname !in old(activeNicknames) ==>
        && activeNicknames == old(activeNicknames) + {nickname}
        && users == old(users)[id := User(nickname, room)]
        && rooms == (if room in old(rooms) then old(rooms) else old(rooms) + [room])
      ensures nickname !in old(activeNicknames) ==>
        log == old(log) + [
          Emit(ToConn(id), NicknameAccepted),
          Emit(Everyone, RoomList(RoomsWithCounts(rooms, users))),
          Emit(RoomExcept(room, id), Message(SystemMessage(JoinedNotice(nickname), time)))]
    {
      if nickname in activeNicknames {
        log := log + [Emit(ToConn(id), NicknameError(NicknameInUseError))];
        return;
      }
      ClaimKeepsRegistered(users, activeNicknames, id, nickname, room);
      JoinKeepsDirectory(rooms, users, id, User(nickname, room));
      activeNicknames := activeNicknames + {nickname};
      users := users[id := User(nickname, room)];
      if room !in rooms {
        rooms := rooms + [room];
      }
      var list := GetRoomsWithCounts(rooms, users);
      log := log + [
        Emit(ToConn(id), NicknameAccepted),
        Emit(Everyone, RoomList(list)),
        Emit(RoomExcept(room, id), Message(SystemMessage(JoinedNotice(nickname), time)))];
    }

    /** `deleteEmptyRooms`: the deletion pass over the rooms nobody is in. */
    method DeleteEmptyRooms()
      requires Valid()
      modifies this`rooms
      ensures Valid()
      ensures rooms == Prune(old(rooms), RoomsInUse(users)).rooms
    {
      PruneKeepsDirectory(rooms, users);
      var kept, dropped := RoomDirectory.DeleteEmptyRooms(rooms, RoomsInUse(users));
      rooms := kept;
    }

    /**
     `disconnect`: a connection that never joined, or has already left,
     changes nothing. Otherwise its nickname is released, its room told that
     it left, its entry removed, the empty rooms deleted, and everyone sent
     the new room list. Either way the connection is gone afterwards, so a
     second disconnect changes nothing.
     */
    method Disconnect(id: ConnId, time: string)
      requires Valid()
      modifies this
      ensures Valid()
      ensures id !in users
      ensures id !in old(users) ==> Snapshot() == old(Snapshot()) && log == old(log)
      ensures id in old(users) ==>
        && activeNicknames == old(activeNicknames) - {old(users)[id].nickname}
        && users == old(users) - {id}
        && rooms == Prune(old(rooms), RoomsInUse(old(users) - {id})).rooms
      ensures id in old(users) ==>
        log == old(log) + [
          Emit(RoomExcept(old(users)[id].room, id), Message(SystemMessage(LeftChatNotice(old(users)[id].nickname), time))),
          Emit(Everyone, RoomList(RoomsWithCounts(rooms, users)))]
    {
      if id !in users {
        return;
      }
      var user := users[id];
      ReleaseKeepsRegistered(users, activeNicknames, id);
      LeaveKeepsDirectory(rooms, users, id);
      activeNicknames := activeNicknames - {user.nickname};
      var left := Emit(RoomExcept(user.room, id), Message(SystemMessage(LeftChatNotice(user.nickname), time)));
      users := users - {id};
      DeleteEmptyRooms();
      var list := GetRoomsWithCounts(rooms, users);
      log := log + [left, Emit(Everyone, RoomList(list))];
    }

    /** The table updates of `changeRoom`: the user moves, and a new room is listed. */
    method MoveUser(id: ConnId, newRoom: string)
      requires Valid() && id in users
      modifies this`users, this`rooms
      ensures Valid()
      ensures users == old(users)[id := old(users)[id].(room := newRoom)]
      ensures rooms == if newRoom in old(rooms) then old(rooms) else old(rooms) + [newRoom]
    {
      var moved := users[id].(room := newRoom);
      MoveKeepsRegistered(users, activeNicknames, id, newRoom);
      JoinKeepsDirectory(rooms, users, id, moved);
      users := users[id := moved];
      if newRoom !in rooms {
        rooms := rooms + [newRoom];
      }
    }

    /**
     `changeRoom`: the connection's user moves to `newRoom`, which is listed
     if new; `oldRoom` is told it left and `newRoom` that it joined, the
     empty rooms are deleted, and everyone is sent the new room list. The
     handler presumes a joined connection.
     */
    method ChangeRoom(id: ConnId, nickname: string, newRoom: string, oldRoom: string, time: string)
      requires Valid() && id in users
      modifies this
      ensures Valid()
      ensures users == old(users)[id := old(users)[id].(room := newRoom)]
      ensures rooms == Prune(if newRoom in old(rooms) then old(rooms) else old(rooms) + [newRoom], RoomsInUse(users)).rooms
      ensures activeNicknames == old(activeNicknames)
      ensures log == old(log) + [
          Emit(RoomExcept(oldRoom, id), Message(SystemMessage(LeftRoomNotice(nickname), time))),
          Emit(RoomExcept(newRoom, id), Message(SystemMessage(JoinedNotice(nickname), time))),
          Emit(Everyone, RoomList(RoomsWithCounts(rooms, users)))]
    {
      MoveUser(id, newRoom);
      var notices := [
        Emit(RoomExcept(oldRoom, id), Message(SystemMessage(LeftRoomNotice(nickname), time))),
        Emit(RoomExcept(newRoom, id), Message(SystemMessage(JoinedNotice(nickname), time)))];
      DeleteEmptyRooms();
      var list := GetRoomsWithCounts(rooms, users);
      log := log + notices + [Emit(Everyone, RoomList(list))];
    }

    /**
     `chatMessage`: the message, without an id, is sent to the whole room,
     sender included; nothing is stored.
     */
    method ChatMessage(nickname: string, room: string, message: Option<string>, image: Option<string>, time: string)
      modifies this`log
      ensures log == old(log) + [Emit(Room(room), Message(MessageData(None, nickname, message, image, time)))]
    {
      log := log + [Emit(Room(room), Message(MessageData(None, nickname, message, image, time)))];
    }
  }
}

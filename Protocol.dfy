/**
 The vocabulary shared by both variants of the chat server: connection ids,
 the per-connection user record, message payloads, stored history entries and
 the outbound events the server emits through the transport.
 */
module Protocol {

  datatype Option<+T> = None | Some(value: T)

  /** A transport connection id (`socket.id`); opaque. */
  type ConnId = string

  /** The default room; it is created at start-up and never deleted. */
  const General: string := "general"

  /** Longest nickname the newer server accepts. */
  const MaxNicknameLength: nat := 16

  /** Number of messages kept per room by the newer server. */
  const MaxHistory: nat := 50

  /** Nickname under which the server sends its own notices. */
  const SystemNickname: string := "System"

  const NicknameTooLongError: string := "Nickname cannot exceed 16 characters."
  const NicknameInUseError: string := "This nickname is already in use. Please choose another one."

  /** What the server remembers about a joined connection. */
  datatype User = User(nickname: string, room: string)

  /**
   A `message` payload. Chat messages of the newer server carry an id;
   system notices and the older server's messages do not. Text and image are
   optional, as the client may send either.
   */
  datatype MessageData = MessageData(
    id: Option<string>,
    nickname: string,
    message: Option<string>,
    image: Option<string>,
    time: string)

  /**
   Reactions on one stored message: for each reaction symbol, the connection
   ids that currently assert it, in the order they reacted.
   */
  type Reactions = map<string, seq<ConnId>>

  /** A message as kept in a room's history: the payload plus its reactions. */
  datatype Entry = Entry(data: MessageData, reactions: Reactions)

  /** One entry of the room list broadcast. */
  datatype RoomCount = RoomCount(name: string, count: nat)

  /** Who an emit reaches. */
  datatype Target =
    | ToConn(conn: ConnId)                      // socket.emit
    | Everyone                                  // io.emit
    | Room(room: string)                        // io.to(room).emit
    | RoomExcept(room: string, except: ConnId)  // socket.to(room).emit

  datatype Event =
    | RoomList(rooms: seq<RoomCount>)                        // 'roomList'
    | NicknameAccepted                                       // 'nicknameAccepted'
    | NicknameError(reason: string)                          // 'nicknameError'
    | Message(data: MessageData)                             // 'message'
    | HistoryReplay(entries: seq<Entry>)                     // 'messageHistory'
    | TypingNotice(nickname: string)                         // 'typing'
    | ReactionAdded(messageId: string, reaction: string)     // 'reaction'
    | ReactionRemoved(messageId: string, reaction: string)   // 'reactionRemoved'

  datatype Emit = Emit(target: Target, event: Event)

  /** A notice the server sends under its own name; it has no id and no image. */
  function SystemMessage(text: string, time: string): MessageData
  {
    MessageData(None, SystemNickname, Some(text), None, time)
  }

  function JoinedNotice(nickname: string): string { nickname + " joined the room." }
  function LeftRoomNotice(nickname: string): string { nickname + " left the room." }
  function LeftChatNotice(nickname: string): string { nickname + " left the chat." }
}

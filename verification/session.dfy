/**
 The session record the registry stores and indexes. The Go `Session` struct is
 declared outside chat/map.go; the registry only ever reads its `ID`, `Region`,
 `IsReady` and `Room` fields, so those are the fields modelled here.
 */
module Sessions {
  import opened Wrappers

  /** A chat room a session has been paired into. Only its presence matters to
      the registry, so it is an opaque name. */
  datatype Room = Room(name: string)

  /** One participant's matchmaking state. `room == None` plays the role of a
      nil `Room` pointer: the session is not chatting. */
  datatype Session = Session(id: string, region: string, isReady: bool, room: Option<Room>) {

    /** A session is chatting when it holds a non-nil room. */
    predicate IsChatting() {
      room.Some?
    }
  }
}

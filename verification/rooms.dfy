/** Chat-room handles as the CTF plugin sees them.

    The chat backend is abstract: all the plugin learns about a room is its
    identifier and whether its room type can hold sub-channels (on Discord, a
    category can and a text channel cannot). Creating a sub-channel under a
    room that cannot hold one fails, which the plugin observes as a missing
    method.
 */
module Rooms {
  import opened Options

  /** A room handle: its identifier, the identifier of the room it was created
      under (if the plugin created it as a sub-channel), and whether its room
      type supports creating sub-channels. */
  datatype Room = Room(id: string, parent: Option<string>, nestable: bool)

  /** The chat backend, reduced to the one fact the plugin depends on: the
      identifiers whose rooms support sub-channels. */
  datatype Backend = Backend(nestable: set<string>)

  /** Outcome of asking a room for a sub-channel. */
  datatype SubchannelResult = Created(room: Room) | Unsupported

  /** Look up the room with identifier `id`. */
  function QueryRoom(b: Backend, id: string): (r: Room)
    ensures r.id == id && r.parent == None
    ensures r.nestable <==> id in b.nestable
  {
    Room(id, None, id in b.nestable)
  }

  /** Create the sub-channel `id` under `parent`. */
  function CreateSubchannel(b: Backend, parent: Room, id: string): (r: SubchannelResult)
    ensures r.Created? <==> parent.nestable
    ensures r.Created? ==> r.room.id == id && r.room.parent == Some(parent.id)
  {
    if parent.nestable then Created(Room(id, Some(parent.id), id in b.nestable))
    else Unsupported
  }
}

/** The shared state the `/tagdelete` command reads and writes: the table
    registry, one table's fields, the requesting session and the command's
    payload. */
module Tables {

  /** What the game records about a tag when it is added; the command never
      looks inside it, it only removes the entry. */
  datatype TagMeta = TagMeta(creatorUserID: int)

  /** One game table. `tags` is the in-memory tag map (`Game.Tags`), which is
      authoritative while `replay` is false; once the table is a replay the
      tags live in the database under `databaseID`. */
  datatype Table = Table(
    running: bool,
    replay: bool,
    tags: map<string, TagMeta>,
    databaseID: int,
    roomName: string)

  /** The process-wide collection of tables, keyed by table ID. */
  type Registry = map<int, Table>

  /** The requesting user's session; only the user name is read. */
  datatype Session = Session(username: string)

  /** The command payload. `noTableLock` is set by callers that already hold
      the table's lock; `noTablesLock` likewise for the registry lock. `room`
      is the requester's chat room, used for the private acknowledgement. */
  datatype CommandData = CommandData(
    tableID: int,
    msg: string,
    room: string,
    noTableLock: bool,
    noTablesLock: bool)
}

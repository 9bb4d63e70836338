# `/tagdelete` on a game table: a Dafny model

This project models the `/tagdelete` command of the hanabi-live game server
(`server/src/command_tag_delete.go`). A tag is a short annotation on a game.
While the game is live, its tags live in an in-memory map on the table
(`Game.Tags`). Once the table is a replay, its tags live in the database,
addressed by the game's database ID.

The command runs in this order:

1. Look up the table. If it is missing, stop silently.
2. Take the table's lock, unless the caller already holds it (`NoTableLock`).
   The lock is released by a deferred unlock on every later return.
3. Refuse a table that is not running.
4. Sanitize the tag text.
5. Delete the tag.
   - Live mode: delete from memory and acknowledge privately to the requester.
   - Replay mode: fetch the stored tags, check membership, issue one database
     delete, and announce the delete publicly in the table's room.

The model is a pure function, `TagCommand.CommandTagDelete`. It takes the
table registry (`map<int, Table>`), the requesting session, the command data,
and the values returned by the collaborators it calls (`Collaborators`). It returns
the new registry, the command data as the caller sees it afterwards, and a
trace of `Effect`s. A collaborator's call appears in the
trace as an event, and its result is read from the input:

- `SanitizeTag`, carrying the requested text
- `GetAllTags`
- `DeleteTag`
- `StorageFailureLogged`
- the requester's warnings, errors and private messages
- the room message

The table lock appears as `AcquireTableLock` and `ReleaseTableLock` events.
Two functions read the lock state off the trace:

- `Effects.HeldAfter` says whether the lock is held afterwards.
- `Effects.Disciplined` says the flow never re-acquires a held lock (Go's
  mutex is not re-entrant) and never releases a free one.

`NoTableLock` is read as "the caller already holds the lock".

Modules:
- `Wrappers`: option and result types.
- `Tables`: registry, table, session and command data.
- `Effects`: the effect trace and the lock and count readings over it.
- `Messages`: the three message texts and their inverse readings.
- `TagCommand`: the command itself.
- `TagDeleteProperties`: the promises, one lemma per branch.
- `Linearization`: requests on one table run one after another, in the order
  the table lock admits them.

The command refuses every table that is not running, replay tables included
(`command_tag_delete.go:26`); `Replay` is only read afterwards, in
`tagDelete`. So a replay table that is not running gets the "not started"
warning.

The command also writes the sanitizer's normalized tag back into the
caller's command data (`command_tag_delete.go:36`). The model returns that
data as part of the outcome.

## Model

| member | source | states |
|---|---|---|
| TagCommand.CommandTagDelete | server/src/command_tag_delete.go:17-40 | The registry keeps its keys. Every other table is untouched. The addressed table can change only in its tags. A public room message is only ever sent for a replay table. On every path there is at most one database delete. It is always of the normalized tag under the table's database ID, and comes after a fetch of that game's tags that succeeded and listed the tag. Only the normalized tag can replace the requested text in the command data. |
| TagCommand.Guarded | server/src/command_tag_delete.go:26-39 | The guarded section takes and releases no locks. In the command data only the text can change, and it becomes the normalized tag exactly when the table is running and the sanitizer accepts. It changes only the table's tags, and none at all when the sanitizer rejects the text. A room message only ever comes from a replay table. There is at most one database delete, of the normalized tag under the table's database ID, after a fetch that listed it. |
| TagCommand.LiveDelete | server/src/command_tag_delete.go:46-58 | Only the table's tags change: exactly the requested key is removed and every other entry keeps its metadata. Exactly one message goes to the requester. When the tag was present it is the private "Successfully deleted" acknowledgement naming the tag, sent to the command's room. Otherwise it is the "does not exist" warning naming the tag. |
| TagCommand.ReplayDelete | server/src/command_tag_delete.go:61-87 | The database fetch always comes first. No private message is sent and no lock is touched. There is at most one delete, and it is of the normalized tag under the database ID, only after a successful fetch that listed it. |
| TagCommand.TagDelete | server/src/command_tag_delete.go:42-88 | A replay table is never changed in memory. A live table loses exactly the normalized key, and every other entry keeps its metadata. A live table never makes a storage call and never sends a room message. A replay table never sends a private message. Any database delete is of this tag under this game's ID, after a fetch succeeded and listed the tag. There is at most one such delete. |
| TagCommand.InSlice | server/src/command_tag_delete.go:73 | The membership test on the fetched list is true exactly when the tag is in the list. |
| TagDeleteProperties.MissingTableIsSilent | server/src/command_tag_delete.go:18-21 | When the table is not found, nothing is sent, nothing changes (the command data included) and nothing is unlocked. |
| TagDeleteProperties.LockDiscipline | server/src/command_tag_delete.go:18-24 | If the command takes the lock, it is acquired first and released last, exactly once each, on every path. Otherwise there are no lock events. The lock ends as it started, and is never re-acquired while held or released while free. |
| TagDeleteProperties.NotRunningOnlyWarns | server/src/command_tag_delete.go:26-29 | A table that is not running gets only the "not started" warning, whatever its replay flag. There is no sanitizer call, no map change, no change to the command data and no database call. |
| TagDeleteProperties.SanitizerErrorWarns | server/src/command_tag_delete.go:32-34 | A sanitizer rejection yields the sanitizer call on the requested text and then one warning carrying the sanitizer's own text. Neither the registry nor the command data changes. |
| TagDeleteProperties.OnlyNormalizedTagMatters | server/src/command_tag_delete.go:32-39 | Two requested texts the sanitizer normalizes alike reach the same registry and the same effects, apart from the text handed to the sanitizer. When the table is running and the sanitizer accepts, both callers also see the same command data afterwards, holding the normalized tag. |
| TagDeleteProperties.NormalizedTagWrittenBack | server/src/command_tag_delete.go:35-37 | The normalized tag replaces the requested text in the caller's command data exactly when the table was found and running and the sanitizer accepted the text. Otherwise the data is left as it was. |
| TagDeleteProperties.LiveDeletePresent | server/src/command_tag_delete.go:46-54 | Live mode with the tag present: exactly that key leaves `Game.Tags` and the rest are unchanged. The requester alone gets the "Successfully deleted" message. No database call is made. |
| TagDeleteProperties.LiveDeleteAbsent | server/src/command_tag_delete.go:55-58 | Live mode with the tag absent: the map is unchanged and the requester gets the "does not exist" warning. |
| TagDeleteProperties.ReplayFetchFails | server/src/command_tag_delete.go:62-67 | When the replay fetch fails, no delete is issued. The cause goes to the log with the database ID. The requester gets only the generic error, and there is no broadcast. |
| TagDeleteProperties.ReplayTagAbsent | server/src/command_tag_delete.go:72-76 | When the tag is not in the fetched list, the requester gets the "does not exist" warning and zero deletes are issued. |
| TagDeleteProperties.ReplayDeleteFails | server/src/command_tag_delete.go:78-84 | When the replay delete fails, one delete was issued. The cause goes to the log only. The requester gets the generic error, and the room hears nothing. |
| TagDeleteProperties.ReplayDeleteSucceeds | server/src/command_tag_delete.go:78-87 | A successful replay delete is exactly one `Delete(databaseID, tag)`, then a public notice to the table's room naming the actor and the tag. Memory is not changed. |
| TagDeleteProperties.OneBackendPerMode | server/src/command_tag_delete.go:26-87 | A request that reaches `tagDelete` (table running, tag accepted) touches exactly its table's own backend. On a replay table it fetches the game's stored tags and never changes memory. On a live table it removes exactly the normalized key and never makes a storage call. A table that is not running touches neither backend. A replay table's memory never changes, and a live table never makes a storage call, on any path. |
| Messages.AckNamesTag | server/src/command_tag_delete.go:53 | The private acknowledgement reads back as exactly the deleted tag. |
| Messages.MissingWarningNamesTag | server/src/command_tag_delete.go:56 | The "does not exist" warning reads back as exactly the requested tag. |
| Messages.BroadcastNamesActorAndTag | server/src/command_tag_delete.go:86 | The room notice starts with the actor's user name and reads back as exactly the deleted tag. |
| Linearization.LiveAckIffPresent | server/src/command_tag_delete.go:46-58 | On a running live table, a request is acknowledged exactly when its normalized tag is in the map. |
| Linearization.LockHandOff | server/src/command_tag_delete.go:18-24 | In a run of commands that take the lock themselves, each finds the lock free and leaves it free for the next. |
| Linearization.FirstRequestWins | server/src/command_tag_delete.go:46-58 | For deletes on one live table in lock order, request i succeeds exactly when its tag was present and no earlier request named it. So each tag is deleted at most once. The final map is the initial one minus all requested tags, with the remaining entries unchanged. |

## Left out

- Real mutual exclusion (`getTableAndLock`, `t.Unlock`, the registry lock) and concurrent interleavings are not modelled. Locking is a pair of trace events on the one sequential path. Concurrency is represented only by running requests one after another, the order the table lock imposes.
- The registry lock (`NoTablesLock`) is not modelled. Its acquisition and release live inside `getTableAndLock`, which is not part of this model. The flag is kept in `CommandData` but not read. It is also not passed on with the room message, although `chatServerSend` receives it.
- Any warning `getTableAndLock` itself sends for a missing table is not modelled. It happens inside that function, which is not part of this model. The command adds nothing of its own.
- `sanitizeTag`, `models.GameTags.GetAll`, `models.GameTags.Delete`, `chatServerSendPM` and `chatServerSend` are not modelled internally. They are not part of this model. Their results are inputs and their calls are trace events.
- `stringInSlice` is not part of this model. It is represented by `TagCommand.InSlice`, specified as list membership.
- `NotStartedFail` and `DefaultErrorMsg` are defined outside the command's file. They stay symbolic (`Notice` constructors) rather than literal strings.
- The log line's text (`strconv.Itoa`, `logger.Error`) is not modelled. Only the database ID and the error's cause are recorded. `context.Context` cancellation is also left out. A cancelled storage call shows up as an error result.
- The database contents after a delete are not modelled. The store's delete semantics are not visible, so only the call is recorded.
- `Table.GetRoomName` is not part of this model. The room name is a field of the table.

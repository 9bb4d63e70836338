/** The `/tagdelete` command: the guards of `commandTagDelete` and the two
    storage regimes of `tagDelete`. Collaborators the command calls into are
    represented by the values they return. */
module TagCommand {
  import opened Wrappers
  import opened Tables
  import opened Effects
  import opened Messages

  /** What the collaborators return for this request: the sanitizer's
      normalized tag or error text, the database's stored tag list or error
      text, and the database delete's error (None when it succeeds). A result
      is only consulted when the command actually makes that call. */
  datatype Collaborators = Collaborators(
    sanitized: Result<string, string>,
    stored: Result<seq<string>, string>,
    deleteError: Option<string>)

  /** One table's state after a step, and the effects of the step. */
  datatype Step = Step(table: Table, trace: seq<Effect>)

  /** The guarded section's result: the table, the command data as the
      section leaves it (the sanitizer's normalized tag is written back into
      the caller's data), and the effects. */
  datatype Section = Section(table: Table, data: CommandData, trace: seq<Effect>)

  /** The registry after the command, the command data as the caller sees it
      afterwards, and everything the command did. */
  datatype Outcome = Outcome(registry: Registry, data: CommandData, trace: seq<Effect>)

  /** Membership of a tag in the list fetched from the database. */
  function InSlice(tag: string, tags: seq<string>): (r: bool)
    ensures r <==> tag in tags
    decreases |tags|
  {
    if |tags| == 0 then false
    else tags[0] == tag || InSlice(tag, tags[1..])
  }

  predicate OnlyTagsChanged(before: Table, after: Table) {
    after == before.(tags := after.tags)
  }

  /** `after` is `before` with exactly `key` removed (if present): every other
      entry keeps its metadata. */
  predicate RemovedKey(before: map<string, TagMeta>, after: map<string, TagMeta>, key: string) {
    && after.Keys == before.Keys - {key}
    && forall k :: k in after ==> after[k] == before[k]
  }

  /** No two effects of `trace` are database deletes. */
  predicate AtMostOneDelete(trace: seq<Effect>) {
    forall i, j :: 0 <= i < |trace| && 0 <= j < |trace| && trace[i].DeleteTag? && trace[j].DeleteTag? ==> i == j
  }

  /** Every database delete in `trace` is of the normalized tag under the
      table's database ID, and comes after a fetch of that game's tags that
      succeeded and listed it. */
  predicate DeletesOnlyListed(trace: seq<Effect>, databaseID: int, c: Collaborators) {
    forall i :: 0 <= i < |trace| && trace[i].DeleteTag? ==>
      && c.sanitized.Success? && c.stored.Success? && c.sanitized.value in c.stored.value
      && trace[i] == DeleteTag(databaseID, c.sanitized.value)
      && exists j :: 0 <= j < i && trace[j] == GetAllTags(databaseID)
  }

  /** Effects that issue no database delete, placed around a trace, keep
      every delete of that trace preceded by its fetch. */
  lemma DeletesOnlyListedFramed(a: seq<Effect>, m: seq<Effect>, b: seq<Effect>, databaseID: int, c: Collaborators)
    requires forall i :: 0 <= i < |a| ==> !a[i].DeleteTag?
    requires forall i :: 0 <= i < |b| ==> !b[i].DeleteTag?
    requires DeletesOnlyListed(m, databaseID, c)
    ensures DeletesOnlyListed(a + m + b, databaseID, c)
  {
    var t := a + m + b;
    forall i | 0 <= i < |t| && t[i].DeleteTag?
      ensures exists j :: 0 <= j < i && t[j] == GetAllTags(databaseID)
    {
      assert |a| <= i < |a| + |m| && t[i] == m[i - |a|];
      var j :| 0 <= j < i - |a| && m[j] == GetAllTags(databaseID);
      assert t[j + |a|] == m[j];
    }
  }

  /** Live branch of `tagDelete`: the in-memory map is authoritative. */
  function LiveDelete(t: Table, d: CommandData): (r: Step)
    ensures r.table == t.(tags := r.table.tags)
    ensures RemovedKey(t.tags, r.table.tags, d.msg)
    ensures |r.trace| == 1 && (r.trace[0].PrivateMessage? || r.trace[0].Warning?)
    ensures r.trace[0].PrivateMessage? <==> d.msg in t.tags
    ensures r.trace[0].PrivateMessage? ==> r.trace[0] == PrivateMessage(DeletedAck(d.msg), d.room)
    ensures r.trace[0].Warning? ==> r.trace[0] == Warning(Text(MissingWarning(d.msg)))
  {
    if d.msg in t.tags then
      Step(t.(tags := t.tags - {d.msg}), [PrivateMessage(DeletedAck(d.msg), d.room)])
    else
      Step(t, [Warning(Text(MissingWarning(d.msg)))])
  }

  /** Replay branch of `tagDelete`: the database is authoritative, so memory
      is left alone and only the effects are returned. `tag` is the
      normalized tag and `c.sanitized` the sanitizer result that produced it. */
  function ReplayDelete(t: Table, s: Session, tag: string, c: Collaborators): (trace: seq<Effect>)
    requires c.sanitized == Success(tag)
    ensures |trace| > 0 && trace[0] == GetAllTags(t.databaseID)
    ensures NoLockEvents(trace)
    ensures forall i :: 0 <= i < |trace| && trace[i].PrivateMessage? ==> false
    ensures AtMostOneDelete(trace)
    ensures DeletesOnlyListed(trace, t.databaseID, c)
  {
    var fetch := GetAllTags(t.databaseID);
    match c.stored
    case Failure(cause) =>
      [fetch, StorageFailureLogged(t.databaseID, cause), Error(DefaultErrorMsg)]
    case Success(tags) =>
      if !InSlice(tag, tags) then
        [fetch, Warning(Text(MissingWarning(tag)))]
      else
        var delete := DeleteTag(t.databaseID, tag);
        match c.deleteError
        case Some(cause) =>
          [fetch, delete, StorageFailureLogged(t.databaseID, cause), Error(DefaultErrorMsg)]
        case None =>
          [fetch, delete, RoomMessage(DeletedBroadcast(s.username, tag), t.roomName)]
  }

  /** `tagDelete`: live tables delete from the in-memory map and acknowledge
      privately; replay tables delete from the database and announce it to the
      table's room. `tag` is the normalized tag `sanitizeTag` returned. */
  function TagDelete(t: Table, s: Session, d: CommandData, tag: string, c: Collaborators): (r: Step)
    requires c.sanitized == Success(tag)
    ensures OnlyTagsChanged(t, r.table)
    ensures t.replay ==> r.table == t
    ensures !t.replay ==> RemovedKey(t.tags, r.table.tags, tag)
    ensures NoLockEvents(r.trace)
    ensures forall i :: 0 <= i < |r.trace| ==> r.trace[i].IsStorageCall() ==> t.replay
    ensures forall i :: 0 <= i < |r.trace| ==> r.trace[i].RoomMessage? ==> t.replay
    ensures forall i :: 0 <= i < |r.trace| ==> r.trace[i].PrivateMessage? ==> !t.replay
    ensures AtMostOneDelete(r.trace)
    ensures DeletesOnlyListed(r.trace, t.databaseID, c)
  {
    if !t.replay then LiveDelete(t, d.(msg := tag))
    else Step(t, ReplayDelete(t, s, tag, c))
  }

  /** The part of `commandTagDelete` that runs with the table in hand: the
      "must be running" guard, the sanitizer, then `tagDelete` on the
      normalized tag. */
  function Guarded(t: Table, s: Session, d: CommandData, c: Collaborators): (r: Section)
    ensures OnlyTagsChanged(t, r.table)
    ensures r.data == d.(msg := r.data.msg)
    ensures r.data.msg != d.msg ==> t.running && c.sanitized == Success(r.data.msg)
    ensures t.running && c.sanitized.Success? ==> r.data.msg == c.sanitized.value
    ensures NoLockEvents(r.trace)
    ensures c.sanitized.Failure? ==> r.table == t
    ensures forall i :: 0 <= i < |r.trace| ==> r.trace[i].RoomMessage? ==> t.replay
    ensures AtMostOneDelete(r.trace)
    ensures DeletesOnlyListed(r.trace, t.databaseID, c)
  {
    if !t.running then
      Section(t, d, [Warning(NotStartedFail)])
    else
      match c.sanitized
      case Failure(reason) =>
        Section(t, d, [SanitizeTag(d.msg), Warning(Text(reason))])
      case Success(normalized) =>
        var inner := TagDelete(t, s, d, normalized, c);
        DeletesOnlyListedFramed([SanitizeTag(d.msg)], inner.trace, [], t.databaseID, c);
        assert [SanitizeTag(d.msg)] + inner.trace + [] == [SanitizeTag(d.msg)] + inner.trace;
        Section(inner.table, d.(msg := normalized), [SanitizeTag(d.msg)] + inner.trace)
  }

  /** A section run under a table lock the command takes itself: the lock is
      acquired before it and, by the deferred unlock, released after it. */
  function Locked(section: seq<Effect>): (r: seq<Effect>)
    ensures |r| == |section| + 2
    ensures r[0] == AcquireTableLock && r[|r| - 1] == ReleaseTableLock
    ensures forall i :: 0 < i < |r| - 1 ==> r[i] == section[i - 1]
  {
    [AcquireTableLock] + section + [ReleaseTableLock]
  }

  /** `commandTagDelete`: look the table up, take its lock unless the caller
      already holds it, run the guarded part, and release the lock on the way
      out (the deferred unlock, which covers every return). */
  function CommandTagDelete(registry: Registry, s: Session, d: CommandData, c: Collaborators): (o: Outcome)
    ensures d.tableID !in registry ==> o.registry == registry
    ensures d.tableID in registry ==>
              && d.tableID in o.registry
              && o.registry == registry[d.tableID := registry[d.tableID].(tags := o.registry[d.tableID].tags)]
    ensures forall i :: 0 <= i < |o.trace| ==> o.trace[i].RoomMessage? ==>
              d.tableID in registry && registry[d.tableID].replay
    ensures AtMostOneDelete(o.trace)
    ensures d.tableID in registry ==> DeletesOnlyListed(o.trace, registry[d.tableID].databaseID, c)
    ensures o.data == d.(msg := o.data.msg)
    ensures o.data.msg != d.msg ==> c.sanitized == Success(o.data.msg)
  {
    if d.tableID !in registry then
      Outcome(registry, d, [])
    else
      var inner := Guarded(registry[d.tableID], s, d, c);
      DeletesOnlyListedFramed([AcquireTableLock], inner.trace, [ReleaseTableLock],
                              registry[d.tableID].databaseID, c);
      var trace := if d.noTableLock then inner.trace else Locked(inner.trace);
      Outcome(registry[d.tableID := inner.table], inner.data, trace)
  }
}

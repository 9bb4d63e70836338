/** What `commandTagDelete` promises, branch by branch and across all
    inputs. Each branch lemma names the exact effects the requester, the room
    and the database observe (lock events aside, which `LockDiscipline`
    covers) and the resulting registry. */
module TagDeleteProperties {
  import opened Tables
  import opened Effects
  import opened Messages
  import opened TagCommand

  /** With the table present, the lock events only bracket what the guarded
      part does. */
  lemma {:induction false} ObservableIsGuarded(registry: Registry, s: Session, d: CommandData, c: Collaborators)
    requires d.tableID in registry
    ensures var o := CommandTagDelete(registry, s, d, c);
            var g := Guarded(registry[d.tableID], s, d, c);
            Observable(o.trace) == g.trace && o.registry == registry[d.tableID := g.table] && o.data == g.data
  {
    var g := Guarded(registry[d.tableID], s, d, c);
    ObservableOfLockFree(g.trace);
    if !d.noTableLock {
      ObservableAppend([AcquireTableLock] + g.trace, [ReleaseTableLock]);
      ObservableAppend([AcquireTableLock], g.trace);
    }
  }

  /** Lookup failure: nothing is sent, nothing changes (the
      command data included), nothing is unlocked. */
  lemma MissingTableIsSilent(registry: Registry, s: Session, d: CommandData, c: Collaborators)
    requires d.tableID !in registry
    ensures CommandTagDelete(registry, s, d, c) == Outcome(registry, d, [])
  {
  }

  /** A lock-free section wrapped by `Locked` takes and releases the lock
      exactly once each and leaves it free. */
  lemma {:induction false} LockedSectionBalanced(section: seq<Effect>)
    requires NoLockEvents(section)
    ensures CountIf(Locked(section), IsAcquire) == 1
    ensures CountIf(Locked(section), IsRelease) == 1
    ensures Disciplined(false, Locked(section))
    ensures !HeldAfter(false, Locked(section))
  {
    var front := [AcquireTableLock] + section;
    assert Locked(section) == front + [ReleaseTableLock];
    LockFreeTrace(true, section);
    assert CountIf(section, IsAcquire) == 0 && CountIf(section, IsRelease) == 0;
    CountIfAppend(front, [ReleaseTableLock], IsAcquire);
    CountIfAppend([AcquireTableLock], section, IsAcquire);
    CountIfAppend(front, [ReleaseTableLock], IsRelease);
    CountIfAppend([AcquireTableLock], section, IsRelease);
    LockAppend(false, front, [ReleaseTableLock]);
    LockAppend(false, [AcquireTableLock], section);
  }

  /** The lock is taken first and released last, exactly once each, when the
      command takes it itself; when the caller already holds it the command
      neither takes nor releases it. Either way the command leaves the lock
      as it found it and never re-acquires a held lock or releases a free
      one. */
  lemma LockDiscipline(registry: Registry, s: Session, d: CommandData, c: Collaborators)
    ensures var o := CommandTagDelete(registry, s, d, c);
            var locks := if d.tableID in registry && !d.noTableLock then 1 else 0;
            && CountIf(o.trace, IsAcquire) == locks
            && CountIf(o.trace, IsRelease) == locks
            && (locks == 1 ==> o.trace[0] == AcquireTableLock && o.trace[|o.trace| - 1] == ReleaseTableLock)
            && Disciplined(d.noTableLock, o.trace)
            && HeldAfter(d.noTableLock, o.trace) == d.noTableLock
  {
    if d.tableID in registry {
      var g := Guarded(registry[d.tableID], s, d, c);
      if d.noTableLock {
        LockFreeTrace(true, g.trace);
        assert CountIf(g.trace, IsAcquire) == 0 && CountIf(g.trace, IsRelease) == 0;
      } else {
        LockedSectionBalanced(g.trace);
      }
    }
  }

  /** A table that is not running gets the "not started" warning and nothing
      else: no sanitizer call, no map change, no database call, whatever its
      replay flag. */
  lemma NotRunningOnlyWarns(registry: Registry, s: Session, d: CommandData, c: Collaborators)
    requires d.tableID in registry && !registry[d.tableID].running
    ensures var o := CommandTagDelete(registry, s, d, c);
            Observable(o.trace) == [Warning(NotStartedFail)] && o.registry == registry && o.data == d
  {
    ObservableIsGuarded(registry, s, d, c);
  }

  /** A sanitizer rejection is relayed with the sanitizer's own text and
      changes nothing. */
  lemma SanitizerErrorWarns(registry: Registry, s: Session, d: CommandData, c: Collaborators)
    requires d.tableID in registry && registry[d.tableID].running
    requires c.sanitized.Failure?
    ensures var o := CommandTagDelete(registry, s, d, c);
            && Observable(o.trace) == [SanitizeTag(d.msg), Warning(Text(c.sanitized.error))]
            && o.registry == registry
            && o.data == d
  {
    ObservableIsGuarded(registry, s, d, c);
  }

  /** The guarded section, run on two requested texts the sanitizer treats
      alike. */
  lemma GuardedIgnoresRawText(t: Table, s: Session, d: CommandData, raw: string, c: Collaborators)
    ensures var g := Guarded(t, s, d, c);
            var g' := Guarded(t, s, d.(msg := raw), c);
            && g.table == g'.table
            && SameApartFromRaw(g.trace, g'.trace)
            && (t.running && c.sanitized.Success? ==> g.data == g'.data)
  {
    var d' := d.(msg := raw);
    if t.running && c.sanitized.Success? {
      var tag := c.sanitized.value;
      assert d.(msg := tag) == d'.(msg := tag);
      assert TagDelete(t, s, d, tag, c) == TagDelete(t, s, d', tag, c);
    }
  }

  /** Once sanitized, the raw text plays no further part: two requests whose
      raw texts the sanitizer normalizes alike reach the same registry and
      the same effects, apart from the text handed to the sanitizer. When the
      sanitizer accepts, the normalized tag is written back into the command
      data, so both callers see the same data afterwards. */
  lemma OnlyNormalizedTagMatters(registry: Registry, s: Session, d: CommandData, raw: string, c: Collaborators)
    ensures var o := CommandTagDelete(registry, s, d, c);
            var o' := CommandTagDelete(registry, s, d.(msg := raw), c);
            && o.registry == o'.registry
            && SameApartFromRaw(o.trace, o'.trace)
            && (d.tableID in registry && registry[d.tableID].running && c.sanitized.Success? ==>
                  o.data == o'.data && o.data.msg == c.sanitized.value)
  {
    if d.tableID in registry {
      var t := registry[d.tableID];
      var g := Guarded(t, s, d, c);
      var g' := Guarded(t, s, d.(msg := raw), c);
      GuardedIgnoresRawText(t, s, d, raw, c);
      if !d.noTableLock {
        var l, l' := Locked(g.trace), Locked(g'.trace);
        assert forall i :: 0 < i < |l| - 1 ==> l[i] == g.trace[i - 1] && l'[i] == g'.trace[i - 1];
      }
    }
  }

  /** The caller's command data afterwards: the normalized tag replaces the
      requested text exactly when the table was found, was running and the
      sanitizer accepted the text; otherwise the data is left as it was. */
  lemma NormalizedTagWrittenBack(registry: Registry, s: Session, d: CommandData, c: Collaborators)
    ensures var o := CommandTagDelete(registry, s, d, c);
            o.data == (if d.tableID in registry && registry[d.tableID].running && c.sanitized.Success?
                       then d.(msg := c.sanitized.value) else d)
  {
    if d.tableID in registry {
      ObservableIsGuarded(registry, s, d, c);
    }
  }

  /** Live mode, tag present: exactly that key leaves the in-memory map, the
      requester alone is told, and the database is not touched. */
  lemma LiveDeletePresent(registry: Registry, s: Session, d: CommandData, c: Collaborators)
    requires d.tableID in registry
    requires registry[d.tableID].running && !registry[d.tableID].replay
    requires c.sanitized.Success? && c.sanitized.value in registry[d.tableID].tags
    ensures var o := CommandTagDelete(registry, s, d, c);
            var t := registry[d.tableID];
            var tag := c.sanitized.value;
            && Observable(o.trace) == [SanitizeTag(d.msg), PrivateMessage(DeletedAck(tag), d.room)]
            && o.registry.Keys == registry.Keys
            && o.registry[d.tableID].tags.Keys == t.tags.Keys - {tag}
            && (forall k :: k in o.registry[d.tableID].tags ==> o.registry[d.tableID].tags[k] == t.tags[k])
  {
    ObservableIsGuarded(registry, s, d, c);
  }

  /** Live mode, tag absent: the map is unchanged and the requester is
      warned. */
  lemma LiveDeleteAbsent(registry: Registry, s: Session, d: CommandData, c: Collaborators)
    requires d.tableID in registry
    requires registry[d.tableID].running && !registry[d.tableID].replay
    requires c.sanitized.Success? && c.sanitized.value !in registry[d.tableID].tags
    ensures var o := CommandTagDelete(registry, s, d, c);
            && Observable(o.trace) == [SanitizeTag(d.msg), Warning(Text(MissingWarning(c.sanitized.value)))]
            && o.registry == registry
  {
    ObservableIsGuarded(registry, s, d, c);
  }

  /** Replay mode, the fetch fails: no delete is attempted; the cause goes to
      the log only and the requester gets the generic error. */
  lemma ReplayFetchFails(registry: Registry, s: Session, d: CommandData, c: Collaborators)
    requires d.tableID in registry
    requires registry[d.tableID].running && registry[d.tableID].replay
    requires c.sanitized.Success? && c.stored.Failure?
    ensures var o := CommandTagDelete(registry, s, d, c);
            var id := registry[d.tableID].databaseID;
            && Observable(o.trace) == [SanitizeTag(d.msg), GetAllTags(id),
                                       StorageFailureLogged(id, c.stored.error), Error(DefaultErrorMsg)]
            && o.registry == registry
  {
    ObservableIsGuarded(registry, s, d, c);
  }

  /** Replay mode, tag not stored: the requester is warned and no delete is
      issued. */
  lemma ReplayTagAbsent(registry: Registry, s: Session, d: CommandData, c: Collaborators)
    requires d.tableID in registry
    requires registry[d.tableID].running && registry[d.tableID].replay
    requires c.sanitized.Success? && c.stored.Success? && c.sanitized.value !in c.stored.value
    ensures var o := CommandTagDelete(registry, s, d, c);
            && Observable(o.trace) == [SanitizeTag(d.msg), GetAllTags(registry[d.tableID].databaseID),
                                       Warning(Text(MissingWarning(c.sanitized.value)))]
            && o.registry == registry
  {
    ObservableIsGuarded(registry, s, d, c);
  }

  /** Replay mode, the delete fails: one delete was issued, the cause goes to
      the log only, the requester gets the generic error, the room hears
      nothing. */
  lemma ReplayDeleteFails(registry: Registry, s: Session, d: CommandData, c: Collaborators)
    requires d.tableID in registry
    requires registry[d.tableID].running && registry[d.tableID].replay
    requires c.sanitized.Success? && c.stored.Success? && c.sanitized.value in c.stored.value
    requires c.deleteError.Some?
    ensures var o := CommandTagDelete(registry, s, d, c);
            var id := registry[d.tableID].databaseID;
            && Observable(o.trace) == [SanitizeTag(d.msg), GetAllTags(id), DeleteTag(id, c.sanitized.value),
                                       StorageFailureLogged(id, c.deleteError.value), Error(DefaultErrorMsg)]
            && o.registry == registry
  {
    ObservableIsGuarded(registry, s, d, c);
  }

  /** Replay mode, success: exactly one delete of that tag under the game's
      database ID, then a public notice naming the actor and the tag goes to
      the table's room. */
  lemma ReplayDeleteSucceeds(registry: Registry, s: Session, d: CommandData, c: Collaborators)
    requires d.tableID in registry
    requires registry[d.tableID].running && registry[d.tableID].replay
    requires c.sanitized.Success? && c.stored.Success? && c.sanitized.value in c.stored.value
    requires c.deleteError.None?
    ensures var o := CommandTagDelete(registry, s, d, c);
            var t := registry[d.tableID];
            && Observable(o.trace) == [SanitizeTag(d.msg), GetAllTags(t.databaseID), DeleteTag(t.databaseID, c.sanitized.value),
                                       RoomMessage(DeletedBroadcast(s.username, c.sanitized.value), t.roomName)]
            && o.registry == registry
  {
    ObservableIsGuarded(registry, s, d, c);
  }

  /** A request that reaches `tagDelete` touches exactly its table's own
      backend: a running replay table with an accepted tag fetches from the
      database and never changes in memory; a running live table with an
      accepted tag loses exactly that key and never makes a storage call. A
      table that is not running touches neither backend. */
  lemma OneBackendPerMode(registry: Registry, s: Session, d: CommandData, c: Collaborators)
    requires d.tableID in registry
    ensures var o := CommandTagDelete(registry, s, d, c);
            var t := registry[d.tableID];
            && (t.replay ==> o.registry == registry)
            && (!t.replay ==> forall i :: 0 <= i < |o.trace| ==> !o.trace[i].IsStorageCall())
            && (t.running && c.sanitized.Success? && t.replay ==> GetAllTags(t.databaseID) in o.trace)
            && (t.running && c.sanitized.Success? && !t.replay ==>
                  RemovedKey(t.tags, o.registry[d.tableID].tags, c.sanitized.value))
            && (!t.running ==> o.registry == registry && forall i :: 0 <= i < |o.trace| ==> !o.trace[i].IsStorageCall())
  {
    ObservableIsGuarded(registry, s, d, c);
  }
}

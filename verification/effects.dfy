/** The observable effects of a command, in the order they happen, and the
    functions that read lock state and counts off such a trace. */
module Effects {

  /** The text of a message sent to the requester. `NotStartedFail` and
      `DefaultErrorMsg` are server-wide constants defined outside the
      command's file, so they are kept symbolic. */
  datatype Notice = NotStartedFail | DefaultErrorMsg | Text(text: string)

  datatype Effect =
    | AcquireTableLock                          // taken by getTableAndLock
    | ReleaseTableLock                          // the deferred t.Unlock
    | Warning(notice: Notice)                   // s.Warning, to the requester only
    | Error(notice: Notice)                     // s.Error, to the requester only
    | PrivateMessage(text: string, room: string)  // chatServerSendPM to the requester
    | RoomMessage(text: string, room: string)   // chatServerSend to a whole room
    | SanitizeTag(raw: string)                  // sanitizeTag(d.Msg), with the requested text
    | GetAllTags(databaseID: int)               // models.GameTags.GetAll
    | DeleteTag(databaseID: int, tag: string)   // models.GameTags.Delete
    | StorageFailureLogged(databaseID: int, cause: string)  // logger.Error
  {
    predicate IsLockEvent() { AcquireTableLock? || ReleaseTableLock? }

    /** Effects the database sees. */
    predicate IsStorageCall() { GetAllTags? || DeleteTag? }
  }

  predicate IsAcquire(e: Effect) { e.AcquireTableLock? }
  predicate IsRelease(e: Effect) { e.ReleaseTableLock? }

  /** Number of effects in `trace` that satisfy `p`. */
  function CountIf(trace: seq<Effect>, p: Effect -> bool): (n: nat)
    ensures n <= |trace|
    ensures n == 0 <==> forall i :: 0 <= i < |trace| ==> !p(trace[i])
  {
    if |trace| == 0 then 0
    else (if p(trace[0]) then 1 else 0) + CountIf(trace[1..], p)
  }

  lemma {:induction false} CountIfAppend(a: seq<Effect>, b: seq<Effect>, p: Effect -> bool)
    ensures CountIf(a + b, p) == CountIf(a, p) + CountIf(b, p)
    decreases |a|
  {
    if |a| == 0 {
      assert a + b == b;
    } else {
      assert (a + b)[1..] == a[1..] + b;
      CountIfAppend(a[1..], b, p);
    }
  }

  /** `a` and `b` are the same effects, except that a sanitizer call may have
      been given a different text. */
  predicate SameApartFromRaw(a: seq<Effect>, b: seq<Effect>) {
    && |a| == |b|
    && forall i :: 0 <= i < |a| ==> a[i] == b[i] || (a[i].SanitizeTag? && b[i].SanitizeTag?)
  }

  predicate NoLockEvents(trace: seq<Effect>) {
    forall i :: 0 <= i < |trace| ==> !trace[i].IsLockEvent()
  }

  /** Whether the table lock is held after `trace`, given whether it was held
      before. */
  function HeldAfter(held: bool, trace: seq<Effect>): bool
    decreases |trace|
  {
    if |trace| == 0 then held
    else
      var next := match trace[0]
        case AcquireTableLock => true
        case ReleaseTableLock => false
        case _ => held;
      HeldAfter(next, trace[1..])
  }

  /** The lock discipline Go's `sync.Mutex` demands: never acquire a lock the
      same flow already holds (it is not re-entrant, so that deadlocks) and
      never release a lock that is not held (a runtime fault). */
  predicate Disciplined(held: bool, trace: seq<Effect>)
    decreases |trace|
  {
    if |trace| == 0 then true
    else match trace[0]
      case AcquireTableLock => !held && Disciplined(true, trace[1..])
      case ReleaseTableLock => held && Disciplined(false, trace[1..])
      case _ => Disciplined(held, trace[1..])
  }

  lemma {:induction false} LockFreeTrace(held: bool, trace: seq<Effect>)
    requires NoLockEvents(trace)
    ensures HeldAfter(held, trace) == held
    ensures Disciplined(held, trace)
    decreases |trace|
  {
    if |trace| > 0 {
      LockFreeTrace(held, trace[1..]);
    }
  }

  lemma {:induction false} LockAppend(held: bool, a: seq<Effect>, b: seq<Effect>)
    ensures HeldAfter(held, a + b) == HeldAfter(HeldAfter(held, a), b)
    ensures Disciplined(held, a + b) <==> Disciplined(held, a) && Disciplined(HeldAfter(held, a), b)
    decreases |a|
  {
    if |a| == 0 {
      assert a + b == b;
    } else {
      assert (a + b)[1..] == a[1..] + b;
      var next := match a[0]
        case AcquireTableLock => true
        case ReleaseTableLock => false
        case _ => held;
      LockAppend(next, a[1..], b);
    }
  }

  /** The effects of `trace` other than taking and releasing the table lock:
      what the requester, the room and the database observe. */
  function Observable(trace: seq<Effect>): (r: seq<Effect>)
    ensures NoLockEvents(r)
    ensures |r| <= |trace|
    decreases |trace|
  {
    if |trace| == 0 then []
    else if trace[0].IsLockEvent() then Observable(trace[1..])
    else [trace[0]] + Observable(trace[1..])
  }

  lemma {:induction false} ObservableAppend(a: seq<Effect>, b: seq<Effect>)
    ensures Observable(a + b) == Observable(a) + Observable(b)
    decreases |a|
  {
    if |a| == 0 {
      assert a + b == b;
    } else {
      assert (a + b)[1..] == a[1..] + b;
      ObservableAppend(a[1..], b);
    }
  }

  lemma {:induction false} ObservableOfLockFree(trace: seq<Effect>)
    requires NoLockEvents(trace)
    ensures Observable(trace) == trace
    decreases |trace|
  {
    if |trace| > 0 {
      ObservableOfLockFree(trace[1..]);
      assert trace == [trace[0]] + trace[1..];
    }
  }
}

/** Requests on one table, run one after another as the table lock orders
    them. The table lock is what makes this sequential reading the whole story:
    each command's locked section runs to completion before the next begins. */
module Linearization {
  import opened Wrappers
  import opened Tables
  import opened Effects
  import opened TagCommand
  import opened TagDeleteProperties

  datatype Request = Request(session: Session, data: CommandData, collaborators: Collaborators)

  /** The registry after a run, and each request's own trace, in order. */
  datatype Run = Run(registry: Registry, traces: seq<seq<Effect>>)

  function RunInOrder(registry: Registry, reqs: seq<Request>): (r: Run)
    ensures |r.traces| == |reqs|
    ensures r.registry.Keys == registry.Keys
    decreases |reqs|
  {
    if |reqs| == 0 then Run(registry, [])
    else
      var o := CommandTagDelete(registry, reqs[0].session, reqs[0].data, reqs[0].collaborators);
      var rest := RunInOrder(o.registry, reqs[1..]);
      Run(rest.registry, [o.trace] + rest.traces)
  }

  /** The whole run's effects, one request after another. */
  function Flatten(traces: seq<seq<Effect>>): (r: seq<Effect>)
    decreases |traces|
  {
    if |traces| == 0 then [] else traces[0] + Flatten(traces[1..])
  }

  /** The normalized tag a request asks to delete, when the sanitizer accepts it. */
  function Target(req: Request): Option<string> {
    match req.collaborators.sanitized
    case Success(tag) => Some(tag)
    case Failure(_) => None
  }

  /** All normalized tags a run asks to delete. */
  function Targets(reqs: seq<Request>): (r: set<string>)
    decreases |reqs|
  {
    if |reqs| == 0 then {}
    else (match Target(reqs[0]) case Some(tag) => {tag} case None => {}) + Targets(reqs[1..])
  }

  /** The requester was sent the private success acknowledgement. */
  predicate Acknowledged(trace: seq<Effect>) {
    exists k :: 0 <= k < |trace| && trace[k].PrivateMessage?
  }

  /** Request `i` names a tag that is in `tags` and that no earlier request
      of the run named. */
  predicate FirstToAsk(tags: map<string, TagMeta>, reqs: seq<Request>, i: int)
    requires 0 <= i < |reqs|
  {
    && Target(reqs[i]).Some?
    && Target(reqs[i]).value in tags
    && forall j :: 0 <= j < i ==> Target(reqs[j]) != Target(reqs[i])
  }

  /** Every request targets table `id`, which is running and live. */
  predicate LiveRun(registry: Registry, id: int, reqs: seq<Request>) {
    && id in registry
    && registry[id].running
    && !registry[id].replay
    && forall i :: 0 <= i < |reqs| ==> reqs[i].data.tableID == id
  }

  lemma {:induction false} AcknowledgedObservable(trace: seq<Effect>)
    ensures Acknowledged(trace) <==> Acknowledged(Observable(trace))
    decreases |trace|
  {
    if |trace| > 0 {
      AcknowledgedObservable(trace[1..]);
      var rest := Observable(trace[1..]);
      if trace[0].IsLockEvent() {
        if Acknowledged(trace) {
          var k :| 0 <= k < |trace| && trace[k].PrivateMessage?;
          assert trace[1..][k - 1].PrivateMessage?;
        }
        if Acknowledged(trace[1..]) {
          var k :| 0 <= k < |trace[1..]| && trace[1..][k].PrivateMessage?;
          assert trace[k + 1].PrivateMessage?;
        }
      } else {
        assert Observable(trace) == [trace[0]] + rest;
        if Acknowledged(trace) {
          var k :| 0 <= k < |trace| && trace[k].PrivateMessage?;
          if k > 0 {
            assert trace[1..][k - 1].PrivateMessage?;
            var m :| 0 <= m < |rest| && rest[m].PrivateMessage?;
            assert Observable(trace)[m + 1].PrivateMessage?;
          } else {
            assert Observable(trace)[0].PrivateMessage?;
          }
        }
        if Acknowledged(Observable(trace)) {
          var k :| 0 <= k < |Observable(trace)| && Observable(trace)[k].PrivateMessage?;
          if k > 0 {
            assert rest[k - 1].PrivateMessage?;
            var m :| 0 <= m < |trace[1..]| && trace[1..][m].PrivateMessage?;
            assert trace[m + 1].PrivateMessage?;
          } else {
            assert trace[0].PrivateMessage?;
          }
        }
      }
    }
  }

  /** On a running live table, a request is acknowledged exactly when its
      normalized tag is in the in-memory map. */
  lemma LiveAckIffPresent(registry: Registry, s: Session, d: CommandData, c: Collaborators)
    requires d.tableID in registry && registry[d.tableID].running && !registry[d.tableID].replay
    ensures var o := CommandTagDelete(registry, s, d, c);
            Acknowledged(o.trace) <==> c.sanitized.Success? && c.sanitized.value in registry[d.tableID].tags
  {
    var o := CommandTagDelete(registry, s, d, c);
    ObservableIsGuarded(registry, s, d, c);
    AcknowledgedObservable(o.trace);
    var obs := Observable(o.trace);
    if c.sanitized.Success? && c.sanitized.value in registry[d.tableID].tags {
      assert obs[1].PrivateMessage?;
    }
  }

  /** Each command finds the table lock free and leaves it free for the next
      one, so no request of the run deadlocks or releases a lock it does not
      hold. */
  lemma {:induction false} LockHandOff(registry: Registry, reqs: seq<Request>)
    requires forall i :: 0 <= i < |reqs| ==> !reqs[i].data.noTableLock
    ensures var r := RunInOrder(registry, reqs);
            Disciplined(false, Flatten(r.traces)) && !HeldAfter(false, Flatten(r.traces))
    decreases |reqs|
  {
    if |reqs| > 0 {
      var o := CommandTagDelete(registry, reqs[0].session, reqs[0].data, reqs[0].collaborators);
      var rest := RunInOrder(o.registry, reqs[1..]);
      var r := RunInOrder(registry, reqs);
      assert r.traces[1..] == rest.traces;
      LockDiscipline(registry, reqs[0].session, reqs[0].data, reqs[0].collaborators);
      LockHandOff(o.registry, reqs[1..]);
      LockAppend(false, o.trace, Flatten(rest.traces));
    }
  }

  /** The first request of a live run removes at most its own target and
      leaves the run live. */
  lemma FirstStep(registry: Registry, id: int, reqs: seq<Request>)
    requires LiveRun(registry, id, reqs) && |reqs| > 0
    ensures var o := CommandTagDelete(registry, reqs[0].session, reqs[0].data, reqs[0].collaborators);
            && LiveRun(o.registry, id, reqs[1..])
            && o.registry[id].tags.Keys
               == registry[id].tags.Keys - (match Target(reqs[0]) case Some(tag) => {tag} case None => {})
            && (forall k :: k in o.registry[id].tags ==> o.registry[id].tags[k] == registry[id].tags[k])
            && (Acknowledged(o.trace) <==> FirstToAsk(registry[id].tags, reqs, 0))
  {
    var req := reqs[0];
    if req.collaborators.sanitized.Failure? {
      SanitizerErrorWarns(registry, req.session, req.data, req.collaborators);
    } else if req.collaborators.sanitized.value in registry[id].tags {
      LiveDeletePresent(registry, req.session, req.data, req.collaborators);
    } else {
      LiveDeleteAbsent(registry, req.session, req.data, req.collaborators);
    }
    LiveAckIffPresent(registry, req.session, req.data, req.collaborators);
  }

  /** Being first to ask for a present tag, seen from the second request on:
      the first request's removal accounts for it having asked. */
  lemma FirstToAskShift(tags: map<string, TagMeta>, tags1: map<string, TagMeta>, reqs: seq<Request>, i: int)
    requires 0 < i < |reqs|
    requires tags1.Keys == tags.Keys - (match Target(reqs[0]) case Some(tag) => {tag} case None => {})
    ensures FirstToAsk(tags1, reqs[1..], i - 1) <==> FirstToAsk(tags, reqs, i)
  {
  }

  /** Concurrent deletions on one live table, linearized by its lock: the
      requests that succeed are exactly those whose tag was still there at
      their turn (so each tag is deleted at most once), and the map ends up
      without every requested tag while all other entries are untouched. */
  lemma {:induction false} FirstRequestWins(registry: Registry, id: int, reqs: seq<Request>)
    requires LiveRun(registry, id, reqs)
    ensures var r := RunInOrder(registry, reqs);
            && r.registry[id].tags.Keys == registry[id].tags.Keys - Targets(reqs)
            && (forall k :: k in r.registry[id].tags ==> r.registry[id].tags[k] == registry[id].tags[k])
            && (forall i :: 0 <= i < |reqs| ==>
                  (Acknowledged(r.traces[i]) <==> FirstToAsk(registry[id].tags, reqs, i)))
    decreases |reqs|
  {
    if |reqs| > 0 {
      var o := CommandTagDelete(registry, reqs[0].session, reqs[0].data, reqs[0].collaborators);
      var rest := RunInOrder(o.registry, reqs[1..]);
      var r := RunInOrder(registry, reqs);
      assert r == Run(rest.registry, [o.trace] + rest.traces);
      FirstStep(registry, id, reqs);
      FirstRequestWins(o.registry, id, reqs[1..]);
      forall i | 0 < i < |reqs|
        ensures Acknowledged(r.traces[i]) <==> FirstToAsk(registry[id].tags, reqs, i)
      {
        assert r.traces[i] == rest.traces[i - 1];
        FirstToAskShift(registry[id].tags, o.registry[id].tags, reqs, i);
      }
    }
  }
}

/** The dead-letter queue's backend and consumer as objects, each method a step of the queue. */
module DlqBackend {
  import opened Prelude
  import opened WebhookDlq
  import DlqBudget
  import DlqSchedule

  function WithUrl(events: map<Id, Event>, url: string): set<Id> {
    set id | id in events && events[id].url == Some(url)
  }

  function OlderThan(events: map<Id, Event>, maxAge: nat, now: nat): set<Id> {
    set id | id in events && events[id].created.Some? && now - events[id].created.value > maxAge
  }

  lemma DeleteNone(q: Queue)
    ensures Delete(q, {}) == q
  {}

  lemma DeleteOneMore(q: Queue, ids: set<Id>, id: Id)
    ensures Delete(Delete(q, ids), {id}) == Delete(q, ids + {id})
  {}

  /** The events of `ids` are in order and come before those of `rest`. */
  ghost predicate LowestPicked(q: Queue, ids: seq<Id>, rest: set<Id>) {
    && NoRepeats(ids) && (forall id :: id in ids ==> id !in rest)
    && (forall i, j :: 0 <= i < j < |ids| ==> Score(q, ids[i]) <= Score(q, ids[j]))
    && (forall id, other :: id in ids && other in rest ==> Score(q, id) <= Score(q, other))
  }

  lemma PickNext(q: Queue, ids: seq<Id>, rest: set<Id>, id: Id)
    requires LowestPicked(q, ids, rest)
    requires id in rest && forall other :: other in rest ==> Score(q, id) <= Score(q, other)
    ensures LowestPicked(q, ids + [id], rest - {id})
  {
    forall i, j | 0 <= i < j < |ids + [id]|
      ensures (ids + [id])[i] != (ids + [id])[j] && Score(q, (ids + [id])[i]) <= Score(q, (ids + [id])[j])
    {
      assert (ids + [id])[i] == ids[i] && ids[i] in ids;
    }
  }

  class WebhookDLQBackend {
    var events: map<Id, Event>
    var pending: map<Id, nat>
    var dead: map<Id, nat>
    var next: Id

    ghost function Q(): Queue
      reads this
    {
      Queue(events, pending, dead, next)
    }

    constructor ()
      ensures Q() == Queue(map[], map[], map[], 0) && Consistent(Q())
    {
      events, pending, dead, next := map[], map[], map[], 0;
    }

    method EnqueueEvent(url: string, attempts: nat, now: nat) returns (id: Id)
      requires Consistent(Q())
      modifies this
      ensures Q() == Enqueue(old(Q()), url, attempts, now) && Consistent(Q())
      ensures id == old(next) && id !in old(events)
      ensures pending == old(pending)[id := now] && dead == old(dead)
      ensures events == old(events)[id := Event(Some(url), attempts, now, Pending, Some(now))]
    {
      EnqueueConsistent(Q(), url, attempts, now);
      id := next;
      events := events[id := Event(Some(url), attempts, now, Pending, Some(now))];
      pending := pending[id := now];
      next := next + 1;
    }

    /** `ZRANGEBYSCORE ... LIMIT`: the due events with the lowest scores. */
    method DequeueEligible(now: nat) returns (ids: seq<Id>)
      ensures IsBatch(Q(), now, ids)
    {
      ids := [];
      var due := set id | id in pending && pending[id] <= now;
      var rest := due;
      while |ids| < BATCH && rest != {}
        invariant |ids| <= BATCH && rest <= due && LowestPicked(Q(), ids, rest)
        invariant forall id :: id in due <==> id in ids || id in rest
        decreases rest
      {
        ghost var lowest := DlqBudget.LowestExists(pending, rest);
        var id :| id in rest && forall other :: other in rest ==> pending[id] <= pending[other];
        PickNext(Q(), ids, rest, id);
        ids := ids + [id];
        rest := rest - {id};
      }
    }

    method MarkEventDead(id: Id, now: nat)
      requires Consistent(Q())
      modifies this
      ensures Q() == MarkDead(old(Q()), id, now) && Consistent(Q())
      ensures pending == old(pending) - {id} && dead == old(dead)[id := now] && id in events
      ensures id in old(events) ==> events == old(events)[id := old(events)[id].(status := Dead)]
    {
      MarkDeadConsistent(Q(), id, now);
      pending := pending - {id};
      dead := dead[id := now];
      events := events[id := if id in events then events[id].(status := Dead) else UNKNOWN];
      next := Max(next, id + 1);
    }

    method ReplayEvent(id: Id, now: nat) returns (moved: bool)
      requires Consistent(Q())
      modifies this
      ensures Q() == Replay(old(Q()), id, now) && Consistent(Q())
      ensures moved == (id in old(dead))
      ensures if moved then pending == old(pending)[id := now] && dead == old(dead) - {id} && events[id].attempts == 0
              else Q() == old(Q())
    {
      ReplayConsistent(Q(), id, now);
      if id !in dead {
        return false;
      }
      dead := dead - {id};
      events := events[id := events[id].(attempts := 0, status := Pending, nextRetry := now)];
      pending := pending[id := now];
      return true;
    }

    method RemoveEvent(id: Id) returns (existed: bool)
      requires Consistent(Q())
      modifies this
      ensures Q() == Delete(old(Q()), {id}) && Consistent(Q())
      ensures existed == (id in old(events))
      ensures events == old(events) - {id} && pending == old(pending) - {id} && dead == old(dead) - {id}
    {
      DeleteConsistent(Q(), {id});
      if id !in events {
        assert events - {id} == events && pending - {id} == pending && dead - {id} == dead;
        return false;
      }
      events := events - {id};
      pending := pending - {id};
      dead := dead - {id};
      return true;
    }

    /** Empty sorted sets are not keys, so they are not counted. */
    method PurgeAll() returns (deleted: nat)
      requires Consistent(Q())
      modifies this
      ensures Q() == Delete(old(Q()), old(events.Keys)) && events == map[] && Consistent(Q())
      ensures deleted ==
              |old(events)| + (if old(pending) == map[] then 0 else 1) + (if old(dead) == map[] then 0 else 1)
    {
      deleted := |events| + (if pending == map[] then 0 else 1) + (if dead == map[] then 0 else 1);
      events, pending, dead := map[], map[], map[];
    }

    /** The loop of both selective purges over a snapshot of event keys. */
    method DeleteMatching(ids: set<Id>) returns (deleted: nat)
      requires Consistent(Q()) && ids <= events.Keys
      modifies this
      ensures Q() == Delete(old(Q()), ids) && Consistent(Q()) && deleted == |ids|
    {
      DeleteConsistent(Q(), ids);
      deleted := 0;
      var rest := ids;
      DeleteNone(Q());
      assert ids - rest == {};
      while rest != {}
        invariant rest <= ids && Q() == Delete(old(Q()), ids - rest)
        invariant deleted + |rest| == |ids|
        decreases rest
      {
        var id :| id in rest;
        DeleteOneMore(old(Q()), ids - rest, id);
        assert ids - (rest - {id}) == (ids - rest) + {id};
        events := events - {id};
        pending := pending - {id};
        dead := dead - {id};
        rest := rest - {id};
        deleted := deleted + 1;
      }
      assert ids - {} == ids;
    }

    method PurgeByUrl(url: string) returns (deleted: nat)
      requires Consistent(Q())
      modifies this
      ensures Consistent(Q()) && Q() == Delete(old(Q()), WithUrl(old(events), url))
      ensures deleted == |WithUrl(old(events), url)|
    {
      deleted := DeleteMatching(WithUrl(events, url));
    }

    method PurgeExpired(maxAge: nat, now: nat) returns (purged: nat)
      requires Consistent(Q())
      modifies this
      ensures Consistent(Q())
      ensures Q() == Delete(old(Q()), OlderThan(old(events), maxAge, now))
      ensures purged == |OlderThan(old(events), maxAge, now)|
    {
      purged := DeleteMatching(OlderThan(events, maxAge, now));
    }
  }

  class DLQConsumer {
    const backend: WebhookDLQBackend
    const cfg: Config

    constructor (backend: WebhookDLQBackend, cfg: Config)
      ensures this.backend == backend && this.cfg == cfg
    {
      this.backend, this.cfg := backend, cfg;
    }

    method RescheduleOrMarkDead(id: Id, now: nat)
      requires Consistent(backend.Q()) && id in backend.pending
      modifies backend
      ensures backend.Q() == Reschedule(old(backend.Q()), cfg, id, now) && Consistent(backend.Q())
      ensures id in backend.events && backend.events[id].attempts == old(backend.events[id].attempts) + 1
      ensures backend.events - {id} == old(backend.events) - {id}
      ensures if old(backend.events[id].attempts) + 1 < cfg.maxRetries
              then
                && backend.pending == old(backend.pending)[id := now + cfg.interval]
                && backend.dead == old(backend.dead)
              else backend.pending == old(backend.pending) - {id} && backend.dead == old(backend.dead)[id := now]
    {
      RescheduleConsistent(backend.Q(), cfg, id, now);
      var event := backend.events[id].(attempts := backend.events[id].attempts + 1);
      if event.attempts >= cfg.maxRetries {
        backend.pending := backend.pending - {id};
        backend.dead := backend.dead[id := now];
        backend.events := backend.events[id := event.(status := Dead)];
      } else {
        var retry := now + cfg.interval;
        backend.pending := backend.pending[id := retry];
        backend.events := backend.events[id := event.(nextRetry := retry)];
      }
      assert backend.Q() == Reschedule(old(backend.Q()), cfg, id, now);
    }

    /** The consumer's part once the delivery is over. */
    method Settle(id: Id, success: bool, now: nat)
      requires Consistent(backend.Q()) && id in backend.pending
      modifies backend
      ensures backend.Q() == (if success then Delete(old(backend.Q()), {id})
                              else Reschedule(old(backend.Q()), cfg, id, now))
      ensures Consistent(backend.Q())
    {
      if success {
        var existed := backend.RemoveEvent(id);
      } else {
        RescheduleOrMarkDead(id, now);
      }
    }

    /** One dispatch, over what the delivery comes to. */
    method DispatchOne(id: Id, outcome: Outcome, done: nat)
      requires Consistent(backend.Q()) && id in backend.pending
      modifies backend
      ensures backend.Q() == Dispatch(old(backend.Q()), cfg, id, outcome, done) && Consistent(backend.Q())
    {
      if outcome.Requeued? {
        var copy := backend.EnqueueEvent(backend.events[id].Target(), outcome.attempts, outcome.at);
      }
      Settle(id, outcome.Delivered?, done);
    }

    method PollOnce(now: nat, deliver: Deliveries, done: Id -> nat) returns (ids: seq<Id>)
      requires Consistent(backend.Q())
      modifies backend
      ensures IsBatch(old(backend.Q()), now, ids)
      ensures backend.Q() == Poll(old(backend.Q()), cfg, ids, deliver, done) && Consistent(backend.Q())
      ensures |backend.events| == |old(backend.events)| - Successes(ids, deliver) + Requeues(ids, deliver)
      ensures forall id :: id in ids && !deliver(id).Delivered? ==>
                id in old(backend.events) && DlqSchedule.FailedAt(old(backend.Q()), backend.Q(), cfg, id, done(id))
    {
      ids := backend.DequeueEligible(now);
      DlqBudget.BatchStored(backend.Q(), now, ids);
      PollConserves(backend.Q(), cfg, ids, deliver, done);
      forall id | id in ids && !deliver(id).Delivered?
        ensures DlqSchedule.FailedAt(backend.Q(), Poll(backend.Q(), cfg, ids, deliver, done), cfg, id, done(id))
      {
        DlqSchedule.FailuresRescheduled(backend.Q(), cfg, now, ids, deliver, done, id);
      }
      DispatchAll(ids, deliver, done);
    }

    method DispatchAll(ids: seq<Id>, deliver: Deliveries, done: Id -> nat)
      requires Consistent(backend.Q()) && NoRepeats(ids) && forall id :: id in ids ==> id in backend.pending
      modifies backend
      ensures backend.Q() == Poll(old(backend.Q()), cfg, ids, deliver, done) && Consistent(backend.Q())
    {
      for i := 0 to |ids|
        invariant Consistent(backend.Q()) && backend.Q() == Poll(old(backend.Q()), cfg, ids[..i], deliver, done)
      {
        PollNext(old(backend.Q()), cfg, ids, i, deliver, done);
        DispatchOne(ids[i], deliver(ids[i]), done(ids[i]));
      }
      assert ids[..|ids|] == ids;
    }

    /** One dispatch with the delivery the library hands to the consumer, over the answers to its posts. */
    method DispatchWired(delivery: WebhookDelivery, id: Id, posts: Posts, done: nat)
      requires Consistent(backend.Q()) && id in backend.pending && delivery.backend == backend
      modifies backend
      ensures backend.Q() == Dispatch(old(backend.Q()), cfg, id, DeliveryOutcome(delivery.retryMax, posts), done)
      ensures Consistent(backend.Q())
    {
      var answer := delivery.DeliverWithRetry(backend.events[id].Target(), posts);
      Settle(id, answer == Returned(true), done);
    }

    method PollWired(delivery: WebhookDelivery, now: nat, posts: Id -> Posts, done: Id -> nat) returns (ids: seq<Id>)
      requires Consistent(backend.Q()) && delivery.backend == backend
      modifies backend
      ensures IsBatch(old(backend.Q()), now, ids)
      ensures backend.Q() == Poll(old(backend.Q()), cfg, ids, Wired(delivery.retryMax, posts), done)
      ensures Consistent(backend.Q())
    {
      ids := backend.DequeueEligible(now);
      DlqBudget.BatchStored(backend.Q(), now, ids);
      DispatchAllWired(delivery, ids, posts, done);
    }

    method DispatchAllWired(delivery: WebhookDelivery, ids: seq<Id>, posts: Id -> Posts, done: Id -> nat)
      requires Consistent(backend.Q()) && NoRepeats(ids) && forall id :: id in ids ==> id in backend.pending
      requires delivery.backend == backend
      modifies backend
      ensures backend.Q() == Poll(old(backend.Q()), cfg, ids, Wired(delivery.retryMax, posts), done)
      ensures Consistent(backend.Q())
    {
      ghost var deliver := Wired(delivery.retryMax, posts);
      for i := 0 to |ids|
        invariant Consistent(backend.Q()) && backend.Q() == Poll(old(backend.Q()), cfg, ids[..i], deliver, done)
      {
        PollNext(old(backend.Q()), cfg, ids, i, deliver, done);
        DispatchWired(delivery, ids[i], posts(ids[i]), done(ids[i]));
      }
      assert ids[..|ids|] == ids;
    }
  }

  // ----- The delivery the library hands to the consumer -----------------------------------

  /** Seconds to wait after a failed post; only their number matters here. */
  const RETRY_DELAYS: seq<nat> := [1, 2, 4]

  datatype Answer = Returned(success: bool) | Raised

  /** Which posts of one delivery succeed, and when it enqueues if it comes to that. */
  datatype Posts = Posts(succeeds: nat -> bool, at: nat)

  /**
   What a delivery comes to, by the answers to its posts: the last post it gets to is the one before
   the delays run out.
   */
  function DeliveryOutcome(retryMax: nat, posts: Posts): Outcome {
    if exists i :: 0 <= i <= Min(retryMax, |RETRY_DELAYS|) && posts.succeeds(i) then Delivered
    else if retryMax <= |RETRY_DELAYS| then Requeued(retryMax + 1, posts.at)
    else Failed
  }

  function Wired(retryMax: nat, posts: Id -> Posts): Deliveries {
    (id: Id) => DeliveryOutcome(retryMax, posts(id))
  }

  predicate SomePostSucceeds(retryMax: nat, posts: Posts) {
    exists i :: 0 <= i <= retryMax && posts.succeeds(i)
  }

  /** Deliveries leave the queue alone exactly when they succeed, or run out of delays first. */
  lemma WiredLeavesAloneIff(retryMax: nat, posts: Id -> Posts, ids: seq<Id>)
    ensures DlqBudget.LeavesQueueAlone(ids, Wired(retryMax, posts)) <==>
            retryMax > |RETRY_DELAYS| || forall id :: id in ids ==> SomePostSucceeds(retryMax, posts(id))
  {
    if retryMax <= |RETRY_DELAYS| {
      assert forall id :: SomePostSucceeds(retryMax, posts(id)) <==> Wired(retryMax, posts)(id).Delivered?;
    }
  }

  /** While no post succeeds, polls are in vain. */
  lemma WiredInVain(retryMax: nat, posts: Id -> Posts, now: nat, ids: seq<Id>, done: Id -> nat)
    requires retryMax <= |RETRY_DELAYS| && ids != []
    requires forall id :: id in ids ==> !SomePostSucceeds(retryMax, posts(id))
    ensures DlqBudget.PollsInVain(Step(now, Retry(ids, Wired(retryMax, posts), done)), retryMax + 1)
  {
    assert forall id :: id in ids ==> Wired(retryMax, posts)(id) == Requeued(retryMax + 1, posts(id).at);
  }

  class WebhookDelivery {
    const backend: WebhookDLQBackend
    const retryMax: nat

    constructor (backend: WebhookDLQBackend, retryMax: nat)
      ensures this.backend == backend && this.retryMax == retryMax
    {
      this.backend, this.retryMax := backend, retryMax;
    }

    /** Posts until one succeeds; when all have failed, enqueues the event and reports failure. */
    method DeliverWithRetry(url: string, posts: Posts) returns (answer: Answer)
      requires Consistent(backend.Q())
      modifies backend
      ensures Consistent(backend.Q())
      ensures match DeliveryOutcome(retryMax, posts)
              case Delivered => answer == Returned(true) && backend.Q() == old(backend.Q())
              case Failed => answer == Raised && backend.Q() == old(backend.Q())
              case Requeued(attempts, at) =>
                answer == Returned(false) && backend.Q() == Enqueue(old(backend.Q()), url, attempts, at)
    {
      for attempt := 0 to retryMax + 1
        invariant attempt <= |RETRY_DELAYS| + 1 && forall i :: 0 <= i < attempt ==> !posts.succeeds(i)
        invariant attempt == |RETRY_DELAYS| + 1 ==> retryMax == |RETRY_DELAYS|
        invariant backend.Q() == old(backend.Q())
      {
        if posts.succeeds(attempt) {
          return Returned(true);
        }
        if attempt < retryMax && attempt >= |RETRY_DELAYS| {
          return Raised;
        }
      }
      var id := backend.EnqueueEvent(url, retryMax + 1, posts.at);
      return Returned(false);
    }
  }
}

/**
 The webhook dead-letter queue: a hash of events and two sorted sets, pending and dead, driven by
 a consumer that retries what is due.

 Every operation is one atomic step.  What a delivery comes to, and when it is over, is left open: a
 poll is given both as functions of the event id.  A failing delivery may put a copy of its event
 into the queue, as the one the library hands to the consumer does.
 */
module WebhookDlq {
  import opened Prelude

  type Id = nat

  datatype Status = Pending | Dead

  /** The address and the creation time are missing from an event known only by its death. */
  datatype Event =
    Event(url: Option<string>, attempts: nat, nextRetry: nat, status: Status, created: Option<nat>)
  {
    /** The address a retry goes to. */
    function Target(): string {
      if url.Some? then url.value else ""
    }
  }

  datatype Config = Config(interval: pos, maxRetries: pos)

  /** `next` stands for unused event ids. */
  datatype Queue = Queue(events: map<Id, Event>, pending: map<Id, nat>, dead: map<Id, nat>, next: Id)

  const BATCH: nat := 10

  /**
   What a delivery comes to.  `Requeued` failed after it enqueued its event anew, with `attempts`
   failures already counted, at time `at`.
   */
  datatype Outcome = Delivered | Failed | Requeued(attempts: nat, at: nat)

  type Deliveries = Id -> Outcome

  /** The hash and the two sorted sets tell the same story. */
  ghost predicate Consistent(q: Queue) {
    && q.pending.Keys !! q.dead.Keys
    && q.pending.Keys + q.dead.Keys == q.events.Keys
    && (forall id :: id in q.pending ==> q.events[id].status == Pending && q.pending[id] == q.events[id].nextRetry)
    && (forall id :: id in q.dead ==> q.events[id].status == Dead)
    && (forall id :: id in q.events ==> id < q.next)
  }

  // ----- Operations on values -------------------------------------------------------------

  function Enqueue(q: Queue, url: string, attempts: nat, now: nat): Queue {
    var event := Event(Some(url), attempts, now, Pending, Some(now));
    Queue(q.events[q.next := event], q.pending[q.next := now], q.dead, q.next + 1)
  }

  /** A hash of which only the status is written reads as having no attempts and no due time. */
  const UNKNOWN: Event := Event(None, 0, 0, Dead, None)

  /** The status is written into the hash of the event; for an unknown id that starts a new hash. */
  function MarkDead(q: Queue, id: Id, now: nat): Queue {
    var event := if id in q.events then q.events[id].(status := Dead) else UNKNOWN;
    Queue(q.events[id := event], q.pending - {id}, q.dead[id := now], Max(q.next, id + 1))
  }

  function Replay(q: Queue, id: Id, now: nat): Queue
    requires id in q.dead ==> id in q.events
  {
    if id !in q.dead then q
    else
      q.(events := q.events[id := q.events[id].(attempts := 0, status := Pending, nextRetry := now)],
         pending := q.pending[id := now],
         dead := q.dead - {id})
  }

  function Delete(q: Queue, ids: set<Id>): Queue {
    q.(events := q.events - ids, pending := q.pending - ids, dead := q.dead - ids)
  }

  /** One failed retry. */
  function Reschedule(q: Queue, cfg: Config, id: Id, now: nat): Queue
    requires id in q.events
  {
    var e := q.events[id].(attempts := q.events[id].attempts + 1);
    if e.attempts >= cfg.maxRetries then
      q.(events := q.events[id := e.(status := Dead)], pending := q.pending - {id}, dead := q.dead[id := now])
    else
      var retry := now + cfg.interval;
      q.(events := q.events[id := e.(nextRetry := retry)], pending := q.pending[id := retry])
  }

  function Dispatch(q: Queue, cfg: Config, id: Id, outcome: Outcome, done: nat): Queue
    requires id in q.events
  {
    match outcome
    case Delivered => Delete(q, {id})
    case Failed => Reschedule(q, cfg, id, done)
    case Requeued(attempts, at) => Reschedule(Enqueue(q, q.events[id].Target(), attempts, at), cfg, id, done)
  }

  /** The dispatches of one poll, in order; an event that is gone is skipped. */
  function Poll(q: Queue, cfg: Config, ids: seq<Id>, deliver: Deliveries, done: Id -> nat): Queue {
    if ids == [] then q
    else
      var before := Poll(q, cfg, ids[..|ids| - 1], deliver, done);
      var id := ids[|ids| - 1];
      if id in before.events then Dispatch(before, cfg, id, deliver(id), done(id)) else before
  }

  predicate Due(q: Queue, id: Id, now: nat) {
    id in q.pending && q.pending[id] <= now
  }

  function Score(q: Queue, id: Id): nat {
    if id in q.pending then q.pending[id] else 0
  }

  ghost predicate NoRepeats(ids: seq<Id>) {
    forall i, j :: 0 <= i < j < |ids| ==> ids[i] != ids[j]
  }

  /** Up to BATCH due events, lowest scores first, none skipped for a later one. */
  ghost predicate IsBatch(q: Queue, now: nat, ids: seq<Id>) {
    && NoRepeats(ids) && |ids| <= BATCH
    && (forall id :: id in ids ==> Due(q, id, now))
    && (forall i, j :: 0 <= i < j < |ids| ==> Score(q, ids[i]) <= Score(q, ids[j]))
    && (forall other, id :: Due(q, other, now) && other !in ids && id in ids ==> Score(q, id) <= Score(q, other))
    && (|ids| < BATCH ==> forall other :: Due(q, other, now) ==> other in ids)
  }

  // ----- Consistency ----------------------------------------------------------------------

  lemma EnqueueConsistent(q: Queue, url: string, attempts: nat, now: nat)
    requires Consistent(q)
    ensures Consistent(Enqueue(q, url, attempts, now))
  {}

  lemma MarkDeadConsistent(q: Queue, id: Id, now: nat)
    requires Consistent(q)
    ensures Consistent(MarkDead(q, id, now))
  {}

  lemma ReplayConsistent(q: Queue, id: Id, now: nat)
    requires Consistent(q)
    ensures Consistent(Replay(q, id, now))
  {}

  lemma DeleteConsistent(q: Queue, ids: set<Id>)
    requires Consistent(q)
    ensures Consistent(Delete(q, ids))
  {}

  lemma RescheduleConsistent(q: Queue, cfg: Config, id: Id, now: nat)
    requires Consistent(q) && id in q.pending
    ensures Consistent(Reschedule(q, cfg, id, now))
  {}

  /** A dispatch leaves every other event as it is; at most it adds one under an unused id. */
  lemma DispatchElsewhere(q: Queue, cfg: Config, id: Id, outcome: Outcome, done: nat, other: Id)
    requires id in q.events && other != id && other < q.next
    ensures SameEntry(q, Dispatch(q, cfg, id, outcome, done), other)
    ensures Dispatch(q, cfg, id, outcome, done).next >= q.next
  {}

  ghost predicate SameEntry(q: Queue, r: Queue, id: Id) {
    && (id in q.events <==> id in r.events) && (id in q.events ==> r.events[id] == q.events[id])
    && (id in q.pending <==> id in r.pending) && (id in q.pending ==> r.pending[id] == q.pending[id])
    && (id in q.dead <==> id in r.dead) && (id in q.dead ==> r.dead[id] == q.dead[id])
  }

  lemma {:induction false} PollElsewhere(
      q: Queue, cfg: Config, ids: seq<Id>, deliver: Deliveries, done: Id -> nat, other: Id)
    requires other !in ids && other < q.next
    ensures SameEntry(q, Poll(q, cfg, ids, deliver, done), other)
    ensures Poll(q, cfg, ids, deliver, done).next >= q.next
  {
    if ids != [] {
      var init, id := ids[..|ids| - 1], ids[|ids| - 1];
      PollElsewhere(q, cfg, init, deliver, done, other);
      var before := Poll(q, cfg, init, deliver, done);
      if id in before.events {
        DispatchElsewhere(before, cfg, id, deliver(id), done(id), other);
      }
    }
  }

  /** The event a poll takes up next is still as the poll found it. */
  lemma PollNext(q: Queue, cfg: Config, ids: seq<Id>, i: nat, deliver: Deliveries, done: Id -> nat)
    requires Consistent(q) && NoRepeats(ids) && i < |ids| && forall id :: id in ids ==> id in q.pending
    ensures var before := Poll(q, cfg, ids[..i], deliver, done);
            && ids[i] in before.pending && ids[i] in before.events
            && Poll(q, cfg, ids[..i + 1], deliver, done) ==
               Dispatch(before, cfg, ids[i], deliver(ids[i]), done(ids[i]))
  {
    assert ids[i] in ids && ids[i] in q.events;
    PollElsewhere(q, cfg, ids[..i], deliver, done, ids[i]);
    assert ids[..i + 1][..i] == ids[..i];
  }

  function Successes(ids: seq<Id>, deliver: Deliveries): nat {
    if ids == [] then 0
    else Successes(ids[..|ids| - 1], deliver) + if deliver(ids[|ids| - 1]).Delivered? then 1 else 0
  }

  /** Deliveries that put a copy of their event into the queue. */
  function Requeues(ids: seq<Id>, deliver: Deliveries): nat {
    if ids == [] then 0
    else Requeues(ids[..|ids| - 1], deliver) + if deliver(ids[|ids| - 1]).Requeued? then 1 else 0
  }

  /** A poll keeps the queue consistent; successful deliveries shrink it, requeued ones make it grow. */
  lemma {:induction false} PollConserves(q: Queue, cfg: Config, ids: seq<Id>, deliver: Deliveries, done: Id -> nat)
    requires Consistent(q) && NoRepeats(ids) && forall id :: id in ids ==> id in q.pending
    ensures var r := Poll(q, cfg, ids, deliver, done);
            && Consistent(r) && r.next == q.next + Requeues(ids, deliver)
            && |r.events| == |q.events| - Successes(ids, deliver) + Requeues(ids, deliver)
  {
    if ids != [] {
      var init, id := ids[..|ids| - 1], ids[|ids| - 1];
      PollConserves(q, cfg, init, deliver, done);
      PollNext(q, cfg, ids, |init|, deliver, done);
      assert ids[..|ids|] == ids;
      DispatchConserves(Poll(q, cfg, init, deliver, done), cfg, id, deliver(id), done(id));
    }
  }

  lemma DispatchConserves(q: Queue, cfg: Config, id: Id, outcome: Outcome, done: nat)
    requires Consistent(q) && id in q.pending
    ensures var r := Dispatch(q, cfg, id, outcome, done);
            && Consistent(r) && r.next == q.next + (if outcome.Requeued? then 1 else 0)
            && |r.events| == |q.events| - (if outcome.Delivered? then 1 else 0) + (if outcome.Requeued? then 1 else 0)
  {
    match outcome
    case Delivered =>
      DeleteConsistent(q, {id});
      DeleteOne(q.events, id);
    case Failed => RescheduleConserves(q, cfg, id, done);
    case Requeued(attempts, at) =>
      EnqueueConserves(q, q.events[id].Target(), attempts, at);
      RescheduleConserves(Enqueue(q, q.events[id].Target(), attempts, at), cfg, id, done);
  }

  lemma EnqueueConserves(q: Queue, url: string, attempts: nat, now: nat)
    requires Consistent(q)
    ensures var r := Enqueue(q, url, attempts, now);
            Consistent(r) && r.next == q.next + 1 && |r.events| == |q.events| + 1 && q.pending.Keys <= r.pending.Keys
  {
    EnqueueConsistent(q, url, attempts, now);
    AddOne(q.events, q.next, Enqueue(q, url, attempts, now).events[q.next]);
  }

  lemma RescheduleConserves(q: Queue, cfg: Config, id: Id, done: nat)
    requires Consistent(q) && id in q.pending
    ensures var r := Reschedule(q, cfg, id, done);
            Consistent(r) && r.next == q.next && |r.events| == |q.events|
  {
    RescheduleConsistent(q, cfg, id, done);
    UpdateOne(q.events, id, Reschedule(q, cfg, id, done).events[id]);
  }

  lemma DeleteOne(m: map<Id, Event>, id: Id)
    requires id in m
    ensures |m - {id}| == |m| - 1
  {
    assert (m - {id}).Keys == m.Keys - {id};
    assert |(m - {id}).Keys| == |m.Keys| - 1;
  }

  lemma AddOne(m: map<Id, Event>, id: Id, e: Event)
    requires id !in m
    ensures |m[id := e]| == |m| + 1
  {
    assert m[id := e].Keys == m.Keys + {id};
  }

  lemma UpdateOne(m: map<Id, Event>, id: Id, e: Event)
    requires id in m
    ensures |m[id := e]| == |m|
  {
    assert m[id := e].Keys == m.Keys;
  }

  // ----- Runs -----------------------------------------------------------------------------

  datatype Op =
    | Add(url: string, attempts: nat)
    | Kill(id: Id)
    | Revive(id: Id)
    | Drop(ids: set<Id>)
    | Retry(batch: seq<Id>, deliver: Deliveries, done: Id -> nat)

  datatype Step = Step(now: nat, op: Op)

  /**
   The step can happen: a dead event still has its hash entry (as in every consistent queue), a poll
   takes a proper batch, and what it does happens after it starts.
   */
  ghost predicate Possible(q: Queue, step: Step) {
    match step.op
    case Revive(id) => id in q.dead ==> id in q.events
    case Retry(batch, deliver, done) =>
      && IsBatch(q, step.now, batch)
      && forall id :: id in batch ==> InOrder(step.now, deliver(id), done(id))
    case _ => true
  }

  /** A delivery that starts at `start` enqueues before it is over. */
  predicate InOrder(start: nat, outcome: Outcome, done: nat) {
    start <= done && (outcome.Requeued? ==> start <= outcome.at <= done)
  }

  ghost function Do(q: Queue, cfg: Config, step: Step): Queue
    requires Possible(q, step)
  {
    match step.op
    case Add(url, attempts) => Enqueue(q, url, attempts, step.now)
    case Kill(id) => MarkDead(q, id, step.now)
    case Revive(id) => Replay(q, id, step.now)
    case Drop(ids) => Delete(q, ids)
    case Retry(batch, deliver, done) => Poll(q, cfg, batch, deliver, done)
  }

  lemma DoConsistent(q: Queue, cfg: Config, step: Step)
    requires Consistent(q) && Possible(q, step)
    ensures Consistent(Do(q, cfg, step))
  {
    match step.op
    case Add(url, attempts) => EnqueueConsistent(q, url, attempts, step.now);
    case Kill(id) => MarkDeadConsistent(q, id, step.now);
    case Revive(id) => ReplayConsistent(q, id, step.now);
    case Drop(ids) => DeleteConsistent(q, ids);
    case Retry(batch, deliver, done) => PollConserves(q, cfg, batch, deliver, done);
  }

  /** `states` is what the run goes through, from its start to its end. */
  ghost predicate Runs(cfg: Config, run: seq<Step>, states: seq<Queue>) {
    && |states| == |run| + 1 && Consistent(states[0])
    && forall i :: 0 <= i < |run| ==> StepAt(cfg, run, states, i)
  }

  ghost predicate StepAt(cfg: Config, run: seq<Step>, states: seq<Queue>, i: nat)
    requires |states| == |run| + 1 && i < |run|
  {
    Possible(states[i], run[i]) && states[i + 1] == Do(states[i], cfg, run[i])
  }

  /** From a consistent queue on, every state of every run is consistent. */
  lemma {:induction false} RunConsistent(cfg: Config, run: seq<Step>, states: seq<Queue>, n: nat)
    requires Runs(cfg, run, states) && n <= |run|
    ensures Consistent(states[n])
  {
    if n > 0 {
      RunConsistent(cfg, run, states, n - 1);
      assert StepAt(cfg, run, states, n - 1);
      DoConsistent(states[n - 1], cfg, run[n - 1]);
    }
  }

  // ----- How often an event is retried ----------------------------------------------------

  predicate Dispatches(step: Step, id: Id) {
    step.op.Retry? && id in step.op.batch
  }

  function DispatchCount(run: seq<Step>, id: Id): nat {
    if run == [] then 0
    else DispatchCount(run[..|run| - 1], id) + if Dispatches(run[|run| - 1], id) then 1 else 0
  }

  /** Nobody but the consumer touches the event, and its deliveries fail. */
  predicate LeftFailing(step: Step, id: Id) {
    match step.op
    case Kill(other) => other != id
    case Revive(other) => other != id
    case Drop(ids) => id !in ids
    case Retry(_, deliver, _) => !deliver(id).Delivered?
    case Add(_, _) => true
  }

  /** The retries an event with `attempts` failures behind it still gets: never fewer than one. */
  function RetriesLeft(cfg: Config, attempts: nat): pos {
    Max(1, cfg.maxRetries - attempts)
  }

  /** What a failed dispatch does to its event depends on that event alone. */
  lemma RescheduleAgrees(q: Queue, r: Queue, cfg: Config, id: Id, outcome: Outcome, done: nat)
    requires id in q.events && id < q.next <= r.next && SameEntry(q, r, id) && !outcome.Delivered?
    ensures SameEntry(Reschedule(q, cfg, id, done), Dispatch(r, cfg, id, outcome, done), id)
    ensures Dispatch(r, cfg, id, outcome, done).next >= r.next
  {}

  lemma {:induction false} PollReschedules(
      q: Queue, cfg: Config, ids: seq<Id>, deliver: Deliveries, done: Id -> nat, id: Id)
    requires Consistent(q) && NoRepeats(ids) && id in ids && id in q.events && !deliver(id).Delivered?
    ensures SameEntry(Reschedule(q, cfg, id, done(id)), Poll(q, cfg, ids, deliver, done), id)
    ensures Poll(q, cfg, ids, deliver, done).next >= q.next
  {
    var init, last := ids[..|ids| - 1], ids[|ids| - 1];
    var before := Poll(q, cfg, init, deliver, done);
    if last == id {
      PollElsewhere(q, cfg, init, deliver, done, id);
      RescheduleAgrees(q, before, cfg, id, deliver(id), done(id));
    } else {
      PollReschedules(q, cfg, init, deliver, done, id);
      if last in before.events {
        DispatchElsewhere(before, cfg, last, deliver(last), done(last), id);
      }
    }
  }

  /** What a step does to an event left failing. */
  lemma FailingStep(q: Queue, cfg: Config, step: Step, id: Id)
    requires Consistent(q) && Possible(q, step) && LeftFailing(step, id) && id in q.events
    ensures var r := Do(q, cfg, step);
            if Dispatches(step, id) then
              && Due(q, id, step.now)
              && SameEntry(Reschedule(q, cfg, id, step.op.done(id)), r, id)
            else SameEntry(q, r, id)
  {
    match step.op
    case Retry(batch, deliver, done) =>
      if id in batch {
        PollReschedules(q, cfg, batch, deliver, done, id);
      } else {
        PollElsewhere(q, cfg, batch, deliver, done, id);
      }
    case _ =>
  }

  lemma RunPrefix(cfg: Config, run: seq<Step>, states: seq<Queue>, n: nat)
    requires Runs(cfg, run, states) && n < |run|
    ensures Runs(cfg, run[..n], states[..n + 1]) && states[..n + 1][n] == states[n]
    ensures StepAt(cfg, run, states, n) && run[n] in run
    ensures forall step :: step in run[..n] ==> step in run
  {
    var init, seen := run[..n], states[..n + 1];
    forall i | 0 <= i < n ensures StepAt(cfg, init, seen, i) {
      assert StepAt(cfg, run, states, i);
      assert init[i] == run[i] && seen[i] == states[i] && seen[i + 1] == states[i + 1];
    }
  }

  /**
   An event with `a` attempts that always fails is dispatched exactly max(1, maxRetries - a) times:
   it is pending before that, and dead, never to be dispatched again, from then on.
   */
  lemma {:induction false} RetriesExact(cfg: Config, run: seq<Step>, states: seq<Queue>, id: Id)
    requires Runs(cfg, run, states) && id in states[0].pending
    requires forall step :: step in run ==> LeftFailing(step, id)
    ensures var a, q, n := states[0].events[id].attempts, states[|run|], DispatchCount(run, id);
            && Consistent(q) && id in q.events && q.events[id].attempts == a + n
            && n <= RetriesLeft(cfg, a)
            && (id in q.dead <==> n == RetriesLeft(cfg, a))
  {
    RunConsistent(cfg, run, states, |run|);
    if run != [] {
      RunConsistent(cfg, run, states, |run| - 1);
      var init, last := run[..|run| - 1], run[|run| - 1];
      RunPrefix(cfg, run, states, |init|);
      RetriesExact(cfg, init, states[..|run|], id);
      FailingStep(states[|run| - 1], cfg, last, id);
    }
  }

  /** While the event stays pending it is not due again before a full interval has passed. */
  lemma {:induction false} NotDueTooSoon(cfg: Config, run: seq<Step>, states: seq<Queue>, id: Id, i: nat)
    requires Runs(cfg, run, states) && id in states[0].pending && i < |run| && Dispatches(run[i], id)
    requires forall step :: step in run ==> LeftFailing(step, id)
    ensures var q := states[|run|];
            id in q.events && (id in q.pending ==> q.pending[id] >= run[i].now + cfg.interval)
  {
    var init, last := run[..|run| - 1], run[|run| - 1];
    RunPrefix(cfg, run, states, |init|);
    RetriesExact(cfg, init, states[..|run|], id);
    RunConsistent(cfg, run, states, |init|);
    FailingStep(states[|run| - 1], cfg, last, id);
    if i < |init| {
      NotDueTooSoon(cfg, init, states[..|run|], id, i);
    }
    DueLater(states[|run| - 1], states[|run|], cfg, last, id, run[i].now);
  }

  /** A step moves a pending event's due time only by dispatching it, and then by a full interval. */
  lemma DueLater(q: Queue, r: Queue, cfg: Config, step: Step, id: Id, at: nat)
    requires Consistent(q) && Possible(q, step) && LeftFailing(step, id) && id in q.events && r == Do(q, cfg, step)
    requires (id in q.pending ==> q.pending[id] >= at + cfg.interval) || (Dispatches(step, id) && step.now == at)
    ensures id in r.events && (id in r.pending ==> r.pending[id] >= at + cfg.interval)
  {
    FailingStep(q, cfg, step, id);
    if Dispatches(step, id) {
      assert step.op.done(id) >= step.now;
    }
  }

  /** Any two dispatches of the event are at least one retry interval apart. */
  lemma DispatchesSpaced(cfg: Config, run: seq<Step>, states: seq<Queue>, id: Id, i: nat, j: nat)
    requires Runs(cfg, run, states) && id in states[0].pending && i < j < |run|
    requires Dispatches(run[i], id) && Dispatches(run[j], id)
    requires forall step :: step in run ==> LeftFailing(step, id)
    ensures run[j].now >= run[i].now + cfg.interval
  {
    RunPrefix(cfg, run, states, j);
    NotDueTooSoon(cfg, run[..j], states[..j + 1], id, i);
  }
}

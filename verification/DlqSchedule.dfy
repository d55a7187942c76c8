/**
 When a failed event is tried again: due exactly one interval after its delivery was over, and taken up
 by the next poll from then on that has room for it.
 */
module DlqSchedule {
  import opened Prelude
  import opened WebhookDlq

  /** A failure counts one attempt; the event is due an interval later, or dead with the last attempt used up. */
  ghost predicate FailedAt(q: Queue, r: Queue, cfg: Config, id: Id, done: nat)
    requires id in q.events
  {
    && id in r.events && r.events[id].attempts == q.events[id].attempts + 1
    && r.events[id].url == q.events[id].url && r.events[id].created == q.events[id].created
    && if q.events[id].attempts + 1 < cfg.maxRetries
       then id in r.pending && r.pending[id] == done + cfg.interval && id !in r.dead
       else id !in r.pending && id in r.dead && r.dead[id] == done
  }

  /** After a poll every event whose delivery failed is due an interval after that, or dead. */
  lemma FailuresRescheduled(
      q: Queue, cfg: Config, now: nat, ids: seq<Id>, deliver: Deliveries, done: Id -> nat, id: Id)
    requires Consistent(q) && IsBatch(q, now, ids) && id in ids && !deliver(id).Delivered?
    ensures id in q.events && FailedAt(q, Poll(q, cfg, ids, deliver, done), cfg, id, done(id))
  {
    assert Due(q, id, now);
    PollReschedules(q, cfg, ids, deliver, done, id);
  }

  // ----- What a batch takes -----------------------------------------------------------------

  /** Other events with a score as low as that of `id`. */
  ghost function AsLow(q: Queue, id: Id): set<Id>
    requires id in q.pending
  {
    set other | other in q.pending && other != id && q.pending[other] <= q.pending[id]
  }

  lemma {:induction false} NoRepeatsFew(ids: seq<Id>, all: set<Id>)
    requires NoRepeats(ids) && forall id :: id in ids ==> id in all
    ensures |ids| <= |all|
  {
    if ids != [] {
      var init, last := ids[..|ids| - 1], ids[|ids| - 1];
      assert last in ids && forall id :: id in init ==> id in ids;
      NoRepeatsFew(init, all - {last});
    }
  }

  /** A batch takes no event before it is due, and every due event with fewer than ten others as low. */
  lemma BatchTakes(q: Queue, now: nat, ids: seq<Id>, id: Id)
    requires IsBatch(q, now, ids) && id in q.pending
    ensures now < q.pending[id] ==> id !in ids
    ensures now >= q.pending[id] && |AsLow(q, id)| < BATCH ==> id in ids
  {
    if now >= q.pending[id] && id !in ids {
      assert Due(q, id, now);
      forall other | other in ids ensures other in AsLow(q, id) {
        assert Due(q, other, now) && Score(q, other) <= Score(q, id);
      }
      NoRepeatsFew(ids, AsLow(q, id));
    }
  }

  // ----- Over a run -------------------------------------------------------------------------

  ghost predicate NoDispatch(run: seq<Step>, id: Id, from: nat, to: nat) {
    forall k :: from <= k < to && k < |run| ==> !Dispatches(run[k], id)
  }

  /** Until it is dispatched again, the event waits for the moment an interval after its last delivery. */
  lemma {:induction false} WaitsExactly(
      cfg: Config, run: seq<Step>, states: seq<Queue>, id: Id, i: nat, j: nat)
    requires Runs(cfg, run, states) && i < j <= |run| && id in states[i].pending
    requires forall step :: step in run ==> LeftFailing(step, id)
    requires Dispatches(run[i], id) && NoDispatch(run, id, i + 1, j)
    ensures Consistent(states[i]) && id in states[i].events
    ensures FailedAt(states[i], states[j], cfg, id, run[i].op.done(id))
  {
    RunConsistent(cfg, run, states, i);
    RunConsistent(cfg, run, states, j - 1);
    assert StepAt(cfg, run, states, j - 1) && run[j - 1] in run;
    if j > i + 1 {
      WaitsExactly(cfg, run, states, id, i, j - 1);
    }
    FailingStep(states[j - 1], cfg, run[j - 1], id);
  }

  /**
   An event that keeps failing and has retries left is taken up again by the first poll, an interval or
   more after its last delivery was over, that finds fewer than ten other events as low; by none before.
   */
  lemma NextDispatch(cfg: Config, run: seq<Step>, states: seq<Queue>, id: Id, i: nat, j: nat)
    requires Runs(cfg, run, states) && i < j < |run| && id in states[i].pending
    requires forall step :: step in run ==> LeftFailing(step, id)
    requires Dispatches(run[i], id) && NoDispatch(run, id, i + 1, j) && run[j].op.Retry?
    requires id in states[i].events ==> states[i].events[id].attempts + 1 < cfg.maxRetries
    ensures var due := run[i].op.done(id) + cfg.interval;
            && id in states[j].pending && states[j].pending[id] == due
            && (run[j].now < due ==> !Dispatches(run[j], id))
            && (run[j].now >= due && |AsLow(states[j], id)| < BATCH ==> Dispatches(run[j], id))
  {
    WaitsExactly(cfg, run, states, id, i, j);
    assert StepAt(cfg, run, states, j);
    BatchTakes(states[j], run[j].now, run[j].op.batch, id);
  }
}

/**
 How long the dead-letter queue keeps its consumer busy: an exact account of the retries left in the
 whole queue, why polling ends when deliveries leave the queue alone, and why it need not when
 failing deliveries put copies of their events into it.
 */
module DlqBudget {
  import opened Prelude
  import opened WebhookDlq

  // ----- Retries left -----------------------------------------------------------------------

  /** Retries left over the events of `ids`. */
  ghost function Budget(cfg: Config, events: map<Id, Event>, ids: set<Id>): nat
    requires ids <= events.Keys
  {
    if ids == {} then 0
    else
      var id :| id in ids;
      RetriesLeft(cfg, events[id].attempts) + Budget(cfg, events, ids - {id})
  }

  lemma {:induction false} BudgetWithout(cfg: Config, events: map<Id, Event>, ids: set<Id>, id: Id)
    requires ids <= events.Keys && id in ids
    ensures Budget(cfg, events, ids) == RetriesLeft(cfg, events[id].attempts) + Budget(cfg, events, ids - {id})
  {
    var first :| first in ids &&
      Budget(cfg, events, ids) == RetriesLeft(cfg, events[first].attempts) + Budget(cfg, events, ids - {first});
    if first != id {
      BudgetWithout(cfg, events, ids - {first}, id);
      BudgetWithout(cfg, events, ids - {id}, first);
      assert ids - {first} - {id} == ids - {id} - {first};
    }
  }

  lemma {:induction false} BudgetSame(cfg: Config, events: map<Id, Event>, other: map<Id, Event>, ids: set<Id>)
    requires ids <= events.Keys && ids <= other.Keys
    requires forall id :: id in ids ==> events[id].attempts == other[id].attempts
    ensures Budget(cfg, events, ids) == Budget(cfg, other, ids)
  {
    if ids != {} {
      var id :| id in ids;
      BudgetWithout(cfg, events, ids, id);
      BudgetWithout(cfg, other, ids, id);
      BudgetSame(cfg, events, other, ids - {id});
    }
  }

  function Share(cfg: Config, events: map<Id, Event>, ids: set<Id>, id: Id): nat {
    if id in ids && id in events then RetriesLeft(cfg, events[id].attempts) else 0
  }

  /** Where only `id` differs, so do the sums, by its share. */
  lemma BudgetMoves(cfg: Config, events: map<Id, Event>, ids: set<Id>, later: map<Id, Event>, left: set<Id>, id: Id)
    requires ids <= events.Keys && left <= later.Keys && ids - {id} == left - {id}
    requires forall other :: other in ids - {id} ==> events[other].attempts == later[other].attempts
    ensures Budget(cfg, later, left) + Share(cfg, events, ids, id) ==
            Budget(cfg, events, ids) + Share(cfg, later, left, id)
  {
    BudgetSame(cfg, events, later, ids - {id});
    if id in ids {
      BudgetWithout(cfg, events, ids, id);
    } else {
      assert ids - {id} == ids;
    }
    if id in left {
      BudgetWithout(cfg, later, left, id);
    } else {
      assert left - {id} == left;
    }
  }

  /** Retries left over all pending events. */
  ghost function QueueBudget(cfg: Config, q: Queue): nat {
    Budget(cfg, q.events, q.pending.Keys * q.events.Keys)
  }

  lemma QueueBudgetMoves(cfg: Config, q: Queue, r: Queue, id: Id)
    requires q.pending.Keys - {id} == r.pending.Keys - {id} && q.pending.Keys <= q.events.Keys
    requires r.pending.Keys <= r.events.Keys
    requires forall other :: other in q.pending && other != id ==>
                             other in r.events && r.events[other] == q.events[other]
    ensures QueueBudget(cfg, r) + Share(cfg, q.events, q.pending.Keys, id) ==
            QueueBudget(cfg, q) + Share(cfg, r.events, r.pending.Keys, id)
  {
    assert q.pending.Keys * q.events.Keys == q.pending.Keys && r.pending.Keys * r.events.Keys == r.pending.Keys;
    BudgetMoves(cfg, q.events, q.pending.Keys, r.events, r.pending.Keys, id);
  }

  lemma RescheduleSpends(q: Queue, cfg: Config, id: Id, done: nat)
    requires Consistent(q) && id in q.pending
    ensures QueueBudget(cfg, Reschedule(q, cfg, id, done)) + 1 == QueueBudget(cfg, q)
  {
    RescheduleConsistent(q, cfg, id, done);
    QueueBudgetMoves(cfg, q, Reschedule(q, cfg, id, done), id);
  }

  lemma DeleteSpends(q: Queue, cfg: Config, id: Id)
    requires Consistent(q) && id in q.pending
    ensures QueueBudget(cfg, Delete(q, {id})) + RetriesLeft(cfg, q.events[id].attempts) == QueueBudget(cfg, q)
  {
    DeleteConsistent(q, {id});
    QueueBudgetMoves(cfg, q, Delete(q, {id}), id);
  }

  lemma EnqueueAdds(q: Queue, cfg: Config, url: string, attempts: nat, now: nat)
    requires Consistent(q)
    ensures QueueBudget(cfg, Enqueue(q, url, attempts, now)) == QueueBudget(cfg, q) + RetriesLeft(cfg, attempts)
  {
    EnqueueConsistent(q, url, attempts, now);
    QueueBudgetMoves(cfg, q, Enqueue(q, url, attempts, now), q.next);
  }

  // ----- What a poll spends and adds --------------------------------------------------------

  /** A success gives up all retries its event had left, a failure uses one. */
  function Spent(q: Queue, cfg: Config, id: Id, outcome: Outcome): pos
    requires id in q.events
  {
    if outcome.Delivered? then RetriesLeft(cfg, q.events[id].attempts) else 1
  }

  /** An event put into the queue brings its own retries. */
  function Added(cfg: Config, outcome: Outcome): nat {
    if outcome.Requeued? then RetriesLeft(cfg, outcome.attempts) else 0
  }

  lemma DispatchBudget(q: Queue, cfg: Config, id: Id, outcome: Outcome, done: nat)
    requires Consistent(q) && id in q.pending
    ensures QueueBudget(cfg, Dispatch(q, cfg, id, outcome, done)) + Spent(q, cfg, id, outcome) ==
            QueueBudget(cfg, q) + Added(cfg, outcome)
  {
    match outcome
    case Delivered => DeleteSpends(q, cfg, id);
    case Failed => RescheduleSpends(q, cfg, id, done);
    case Requeued(attempts, at) =>
      var url := q.events[id].Target();
      EnqueueConsistent(q, url, attempts, at);
      EnqueueAdds(q, cfg, url, attempts, at);
      RescheduleSpends(Enqueue(q, url, attempts, at), cfg, id, done);
  }

  function TotalSpent(q: Queue, cfg: Config, ids: seq<Id>, deliver: Deliveries): nat
    requires forall id :: id in ids ==> id in q.events
  {
    if ids == [] then 0
    else
      assert forall id :: id in ids[..|ids| - 1] ==> id in ids;
      TotalSpent(q, cfg, ids[..|ids| - 1], deliver) + Spent(q, cfg, ids[|ids| - 1], deliver(ids[|ids| - 1]))
  }

  function TotalAdded(cfg: Config, ids: seq<Id>, deliver: Deliveries): nat {
    if ids == [] then 0
    else TotalAdded(cfg, ids[..|ids| - 1], deliver) + Added(cfg, deliver(ids[|ids| - 1]))
  }

  lemma AllButLast(ids: seq<Id>)
    requires NoRepeats(ids) && ids != []
    ensures var init, last := ids[..|ids| - 1], ids[|ids| - 1];
            NoRepeats(init) && last in ids && last !in init && forall id :: id in init ==> id in ids
  {}

  /** The event a poll dispatches last, and the queue it meets. */
  lemma PollLast(q: Queue, cfg: Config, ids: seq<Id>, deliver: Deliveries, done: Id -> nat)
    requires Consistent(q) && NoRepeats(ids) && (forall id :: id in ids ==> id in q.pending) && ids != []
    ensures var before, id := Poll(q, cfg, ids[..|ids| - 1], deliver, done), ids[|ids| - 1];
            && Consistent(before) && id in before.pending && id in q.events && before.events[id] == q.events[id]
            && before.next >= q.next
            && Poll(q, cfg, ids, deliver, done) == Dispatch(before, cfg, id, deliver(id), done(id))
  {
    var init, id := ids[..|ids| - 1], ids[|ids| - 1];
    AllButLast(ids);
    PollConserves(q, cfg, init, deliver, done);
    PollElsewhere(q, cfg, init, deliver, done, id);
  }

  /** The exact change of the retries left: what the outcomes spend, and what requeued events bring. */
  lemma {:induction false} PollBudget(q: Queue, cfg: Config, ids: seq<Id>, deliver: Deliveries, done: Id -> nat)
    requires Consistent(q) && NoRepeats(ids) && forall id :: id in ids ==> id in q.pending && id in q.events
    ensures QueueBudget(cfg, Poll(q, cfg, ids, deliver, done)) + TotalSpent(q, cfg, ids, deliver) ==
            QueueBudget(cfg, q) + TotalAdded(cfg, ids, deliver)
  {
    if ids != [] {
      var init, id := ids[..|ids| - 1], ids[|ids| - 1];
      assert forall id :: id in init ==> id in ids;
      PollBudget(q, cfg, init, deliver, done);
      PollLast(q, cfg, ids, deliver, done);
      DispatchBudget(Poll(q, cfg, init, deliver, done), cfg, id, deliver(id), done(id));
    }
  }

  lemma {:induction false} SpendsAll(q: Queue, cfg: Config, ids: seq<Id>, deliver: Deliveries)
    requires forall id :: id in ids ==> id in q.events
    ensures TotalSpent(q, cfg, ids, deliver) >= |ids|
  {
    if ids != [] {
      assert forall id :: id in ids[..|ids| - 1] ==> id in ids;
      SpendsAll(q, cfg, ids[..|ids| - 1], deliver);
    }
  }

  predicate LeavesQueueAlone(ids: seq<Id>, deliver: Deliveries) {
    forall id :: id in ids ==> !deliver(id).Requeued?
  }

  lemma {:induction false} RequeuesNone(cfg: Config, ids: seq<Id>, deliver: Deliveries)
    ensures Requeues(ids, deliver) == 0 <==> LeavesQueueAlone(ids, deliver)
    ensures TotalAdded(cfg, ids, deliver) == 0 <==> LeavesQueueAlone(ids, deliver)
  {
    if ids != [] {
      var init, last := ids[..|ids| - 1], ids[|ids| - 1];
      RequeuesNone(cfg, init, deliver);
      assert ids == init + [last];
    }
  }

  /** A poll shrinks the queue by exactly its successful deliveries if and only if no delivery put anything into it. */
  lemma PollShrinksIff(q: Queue, cfg: Config, ids: seq<Id>, deliver: Deliveries, done: Id -> nat)
    requires Consistent(q) && NoRepeats(ids) && forall id :: id in ids ==> id in q.pending
    ensures |Poll(q, cfg, ids, deliver, done).events| == |q.events| - Successes(ids, deliver)
            <==> LeavesQueueAlone(ids, deliver)
  {
    PollConserves(q, cfg, ids, deliver, done);
    RequeuesNone(cfg, ids, deliver);
  }

  // ----- Polling ends when deliveries leave the queue alone ---------------------------------

  function TotalDispatches(run: seq<Step>): nat {
    if run == [] then 0
    else TotalDispatches(run[..|run| - 1]) + if run[|run| - 1].op.Retry? then |run[|run| - 1].op.batch| else 0
  }

  lemma BatchStored(q: Queue, now: nat, ids: seq<Id>)
    requires Consistent(q) && IsBatch(q, now, ids)
    ensures NoRepeats(ids) && forall id :: id in ids ==> id in q.pending && id in q.events
  {
    assert forall id :: id in ids ==> Due(q, id, now);
  }

  /**
   However long the consumer polls, with nothing added or replayed and deliveries that leave the
   queue alone, its dispatches stay within the initial budget.
   */
  lemma {:induction false} PollingTerminates(cfg: Config, run: seq<Step>, states: seq<Queue>)
    requires Runs(cfg, run, states)
    requires forall step :: step in run ==> step.op.Retry? && LeavesQueueAlone(step.op.batch, step.op.deliver)
    ensures TotalDispatches(run) + QueueBudget(cfg, states[|run|]) <= QueueBudget(cfg, states[0])
  {
    if run != [] {
      var init, last := run[..|run| - 1], run[|run| - 1];
      RunConsistent(cfg, run, states, |init|);
      RunPrefix(cfg, run, states, |init|);
      PollingTerminates(cfg, init, states[..|run|]);
      BatchStored(states[|init|], last.now, last.op.batch);
      PollBudget(states[|init|], cfg, last.op.batch, last.op.deliver, last.op.done);
      SpendsAll(states[|init|], cfg, last.op.batch, last.op.deliver);
      RequeuesNone(cfg, last.op.batch, last.op.deliver);
    }
  }

  // ----- Polling need not end when they do not ----------------------------------------------

  /** Everything a poll puts into the queue is pending after it. */
  lemma {:induction false} RequeuedStaysPending(
      q: Queue, cfg: Config, ids: seq<Id>, deliver: Deliveries, done: Id -> nat, id: Id)
    requires Consistent(q) && NoRepeats(ids) && forall id :: id in ids ==> id in q.pending
    requires q.next <= id < q.next + Requeues(ids, deliver)
    ensures id in Poll(q, cfg, ids, deliver, done).pending
  {
    var init, last := ids[..|ids| - 1], ids[|ids| - 1];
    var before := Poll(q, cfg, init, deliver, done);
    PollLast(q, cfg, ids, deliver, done);
    PollConserves(q, cfg, init, deliver, done);
    if id < before.next {
      RequeuedStaysPending(q, cfg, init, deliver, done, id);
    }
    DispatchKeepsNew(before, cfg, last, deliver(last), done(last), id);
  }

  /** A dispatch leaves what else is pending, and what it enqueues, pending. */
  lemma DispatchKeepsNew(q: Queue, cfg: Config, id: Id, outcome: Outcome, done: nat, other: Id)
    requires Consistent(q) && id in q.pending && other != id
    requires other in q.pending || (outcome.Requeued? && other == q.next)
    ensures other in Dispatch(q, cfg, id, outcome, done).pending
  {}

  /** So a poll that leaves nothing pending had no delivery that put anything into the queue. */
  lemma EmptiedLeftAlone(q: Queue, cfg: Config, ids: seq<Id>, deliver: Deliveries, done: Id -> nat)
    requires Consistent(q) && NoRepeats(ids) && forall id :: id in ids ==> id in q.pending
    requires |Poll(q, cfg, ids, deliver, done).pending| == 0
    ensures LeavesQueueAlone(ids, deliver)
  {
    RequeuesNone(cfg, ids, deliver);
    if Requeues(ids, deliver) > 0 {
      RequeuedStaysPending(q, cfg, ids, deliver, done, q.next);
    }
  }

  predicate AllRequeued(step: Step) {
    step.op.Retry? && forall id :: id in step.op.batch ==> step.op.deliver(id).Requeued?
  }

  lemma {:induction false} RequeuesEach(ids: seq<Id>, deliver: Deliveries)
    requires forall id :: id in ids ==> deliver(id).Requeued?
    ensures Requeues(ids, deliver) == |ids| && Successes(ids, deliver) == 0
  {
    if ids != [] {
      assert forall id :: id in ids[..|ids| - 1] ==> id in ids;
      RequeuesEach(ids[..|ids| - 1], deliver);
      assert ids[|ids| - 1] in ids;
    }
  }

  /** While every delivery is requeued, each dispatch leaves one event more, and something is always pending. */
  lemma {:induction false} NeverEmpties(cfg: Config, run: seq<Step>, states: seq<Queue>, n: nat)
    requires Runs(cfg, run, states) && |states[0].pending| > 0 && n <= |run|
    requires forall step :: step in run ==> AllRequeued(step)
    ensures |states[n].pending| > 0 && |states[n].events| == |states[0].events| + TotalDispatches(run[..n])
  {
    if n > 0 {
      NeverEmpties(cfg, run, states, n - 1);
      StepNeverEmpties(cfg, run, states, n - 1);
      assert run[..n][..n - 1] == run[..n - 1];
    }
  }

  lemma StepNeverEmpties(cfg: Config, run: seq<Step>, states: seq<Queue>, i: nat)
    requires Runs(cfg, run, states) && i < |run| && AllRequeued(run[i]) && |states[i].pending| > 0
    ensures |states[i + 1].pending| > 0 && |states[i + 1].events| == |states[i].events| + |run[i].op.batch|
  {
    RunConsistent(cfg, run, states, i);
    assert StepAt(cfg, run, states, i);
    PollNeverEmpties(states[i], cfg, run[i]);
  }

  lemma PollNeverEmpties(q: Queue, cfg: Config, step: Step)
    requires Consistent(q) && Possible(q, step) && AllRequeued(step) && |q.pending| > 0
    ensures var r := Do(q, cfg, step); |r.pending| > 0 && |r.events| == |q.events| + |step.op.batch|
  {
    var ids, deliver, done := step.op.batch, step.op.deliver, step.op.done;
    BatchStored(q, step.now, ids);
    PollConserves(q, cfg, ids, deliver, done);
    RequeuesEach(ids, deliver);
    if ids != [] {
      RequeuedStaysPending(q, cfg, ids, deliver, done, q.next);
    }
  }

  /** A sorted set has a lowest score. */
  lemma {:induction false} LowestExists(pending: map<Id, nat>, ids: set<Id>) returns (lowest: Id)
    requires ids != {} && ids <= pending.Keys
    ensures lowest in ids && forall id :: id in ids ==> pending[lowest] <= pending[id]
  {
    lowest :| lowest in ids;
    var rest := ids - {lowest};
    if rest != {} {
      var first := lowest;
      var other := LowestExists(pending, rest);
      if pending[other] < pending[lowest] {
        lowest := other;
      }
      forall id | id in ids ensures pending[lowest] <= pending[id] {
        assert id == first || id in rest;
      }
    } else {
      assert ids == {lowest};
    }
  }

  /** The `k` lowest of `due`, in order. */
  ghost predicate AreLowest(q: Queue, due: set<Id>, k: nat, ids: seq<Id>) {
    && NoRepeats(ids) && |ids| <= k && (forall id :: id in ids ==> id in due)
    && (forall i, j :: 0 <= i < j < |ids| ==> Score(q, ids[i]) <= Score(q, ids[j]))
    && (forall other, id :: other in due && other !in ids && id in ids ==> Score(q, id) <= Score(q, other))
    && (|ids| < k ==> forall other :: other in due ==> other in ids)
  }

  lemma {:induction false} LowestInOrder(q: Queue, due: set<Id>, k: nat) returns (ids: seq<Id>)
    requires due <= q.pending.Keys
    ensures AreLowest(q, due, k, ids) && (k > 0 && due != {} ==> ids != [])
    decreases k
  {
    if k == 0 || due == {} {
      ids := [];
    } else {
      var lowest := LowestExists(q.pending, due);
      var rest := LowestInOrder(q, due - {lowest}, k - 1);
      ids := [lowest] + rest;
      LowestPrepended(q, due, k, lowest, rest);
    }
  }

  lemma LowestPrepended(q: Queue, due: set<Id>, k: pos, lowest: Id, rest: seq<Id>)
    requires lowest in due && due <= q.pending.Keys && forall id :: id in due ==> Score(q, lowest) <= Score(q, id)
    requires AreLowest(q, due - {lowest}, k - 1, rest)
    ensures AreLowest(q, due, k, [lowest] + rest)
  {
    var ids := [lowest] + rest;
    assert forall id :: id in ids <==> id == lowest || id in rest;
    forall i, j | 0 <= i < j < |ids| ensures ids[i] != ids[j] && Score(q, ids[i]) <= Score(q, ids[j]) {
      assert ids[j] == rest[j - 1] && rest[j - 1] in rest;
      assert i > 0 ==> ids[i] == rest[i - 1];
    }
  }

  lemma BatchExists(q: Queue, now: nat, due: Id) returns (ids: seq<Id>)
    requires Due(q, due, now)
    ensures IsBatch(q, now, ids) && ids != []
  {
    var all := set id | id in q.pending && q.pending[id] <= now;
    assert due in all;
    ids := LowestInOrder(q, all, BATCH);
  }

  ghost predicate Chronological(run: seq<Step>) {
    forall i, j :: 0 <= i < j < |run| ==> run[i].now <= run[j].now
  }

  lemma LaterKeepsOrder(run: seq<Step>, step: Step)
    requires Chronological(run) && (run != [] ==> run[|run| - 1].now <= step.now)
    ensures Chronological(run + [step])
  {}

  /** The poll dispatches, and every delivery puts a copy with `attempts` failures behind it into the queue. */
  predicate PollsInVain(step: Step, attempts: nat) {
    && AllRequeued(step) && |step.op.batch| >= 1
    && forall id :: id in step.op.batch ==> step.op.deliver(id).attempts == attempts
  }

  /** A run of such polls from `q`, one after the other. */
  ghost predicate RunsInVain(q: Queue, cfg: Config, attempts: nat, run: seq<Step>, states: seq<Queue>) {
    && Runs(cfg, run, states) && states[0] == q && Chronological(run)
    && forall step :: step in run ==> PollsInVain(step, attempts)
  }

  lemma VainExtends(q: Queue, cfg: Config, attempts: nat, run: seq<Step>, states: seq<Queue>, step: Step)
    requires RunsInVain(q, cfg, attempts, run, states) && (run != [] ==> run[|run| - 1].now <= step.now)
    requires Possible(states[|run|], step) && PollsInVain(step, attempts)
    ensures RunsInVain(q, cfg, attempts, run + [step], states + [Do(states[|run|], cfg, step)])
  {
    RunExtends(cfg, run, states, step);
    LaterKeepsOrder(run, step);
  }

  lemma {:induction false} DispatchesEach(run: seq<Step>, attempts: nat)
    requires forall step :: step in run ==> PollsInVain(step, attempts)
    ensures TotalDispatches(run) >= |run|
  {
    if run != [] {
      assert run[|run| - 1] in run;
      DispatchesEach(run[..|run| - 1], attempts);
    }
  }

  /** Such a run has left the queue with something pending, and one event more for each poll at least. */
  lemma VainGrows(q: Queue, cfg: Config, attempts: nat, run: seq<Step>, states: seq<Queue>)
    requires RunsInVain(q, cfg, attempts, run, states) && |q.pending| > 0
    ensures Consistent(states[|run|]) && |states[|run|].pending| > 0
    ensures |states[|run|].events| >= |q.events| + |run|
  {
    RunConsistent(cfg, run, states, |run|);
    assert forall step :: step in run ==> PollsInVain(step, attempts);
    NeverEmpties(cfg, run, states, |run|);
    DispatchesEach(run, attempts);
    assert run[..|run|] == run;
  }

  /** One poll in vain, no earlier than `last`. */
  lemma OneMorePoll(q: Queue, attempts: nat, last: nat) returns (step: Step)
    requires Consistent(q) && |q.pending| > 0
    ensures Possible(q, step) && PollsInVain(step, attempts) && step.now >= last
  {
    var id :| id in q.pending;
    var now := Max(last, q.pending[id]);
    var batch := BatchExists(q, now, id);
    step := Step(now, Retry(batch, (_: Id) => Requeued(attempts, now), (_: Id) => now));
  }

  lemma OneMoreInVain(q: Queue, cfg: Config, attempts: nat, run: seq<Step>, states: seq<Queue>) returns (step: Step)
    requires RunsInVain(q, cfg, attempts, run, states) && |q.pending| > 0
    ensures Possible(states[|run|], step)
    ensures RunsInVain(q, cfg, attempts, run + [step], states + [Do(states[|run|], cfg, step)])
  {
    VainGrows(q, cfg, attempts, run, states);
    step := OneMorePoll(states[|run|], attempts, if run == [] then 0 else run[|run| - 1].now);
    VainExtends(q, cfg, attempts, run, states, step);
  }

  /**
   Against an address that stays down, from any queue with something pending, there is such a run of
   any number of polls.
   */
  lemma {:induction false} DownForever(q: Queue, cfg: Config, attempts: nat, n: nat)
    returns (run: seq<Step>, states: seq<Queue>)
    requires Consistent(q) && |q.pending| > 0
    ensures |run| == n && RunsInVain(q, cfg, attempts, run, states)
  {
    if n == 0 {
      run, states := [], [q];
    } else {
      run, states := DownForever(q, cfg, attempts, n - 1);
      var step := OneMoreInVain(q, cfg, attempts, run, states);
      run, states := run + [step], states + [Do(states[|run|], cfg, step)];
    }
  }

  lemma {:induction false} VainAccount(q: Queue, cfg: Config, ids: seq<Id>, deliver: Deliveries, attempts: nat)
    requires forall id :: id in ids ==> id in q.events && deliver(id).Requeued? && deliver(id).attempts == attempts
    ensures TotalSpent(q, cfg, ids, deliver) == |ids|
    ensures TotalAdded(cfg, ids, deliver) == |ids| * RetriesLeft(cfg, attempts)
  {
    if ids != [] {
      var init, last := ids[..|ids| - 1], ids[|ids| - 1];
      assert last in ids && forall id :: id in init ==> id in ids;
      VainAccount(q, cfg, init, deliver, attempts);
      assert |init| * RetriesLeft(cfg, attempts) + RetriesLeft(cfg, attempts) == |ids| * RetriesLeft(cfg, attempts);
    }
  }

  lemma LessOne(n: nat, k: pos)
    ensures n * (k - 1) == n * k - n
  {}

  /** The retries left do not fall: each dispatch replaces the one it uses by those of the copy. */
  lemma BudgetInVain(q: Queue, cfg: Config, step: Step, attempts: nat)
    requires Consistent(q) && Possible(q, step) && PollsInVain(step, attempts)
    ensures QueueBudget(cfg, Do(q, cfg, step)) ==
            QueueBudget(cfg, q) + |step.op.batch| * (RetriesLeft(cfg, attempts) - 1)
  {
    var ids, deliver := step.op.batch, step.op.deliver;
    BatchStored(q, step.now, ids);
    PollBudget(q, cfg, ids, deliver, step.op.done);
    VainAccount(q, cfg, ids, deliver, attempts);
    LessOne(|ids|, RetriesLeft(cfg, attempts));
  }

  lemma RunExtends(cfg: Config, run: seq<Step>, states: seq<Queue>, step: Step)
    requires Runs(cfg, run, states) && Possible(states[|run|], step)
    ensures Runs(cfg, run + [step], states + [Do(states[|run|], cfg, step)])
  {
    var more, seen := run + [step], states + [Do(states[|run|], cfg, step)];
    forall i | 0 <= i < |more| ensures StepAt(cfg, more, seen, i) {
      if i < |run| {
        assert StepAt(cfg, run, states, i);
      }
    }
  }

  function FailedFourTimes(url: string): Queue {
    Queue(map[0 := Event(Some(url), 4, 0, Pending, Some(0))], map[0 := 0], map[], 1)
  }

  lemma PollOne(q: Queue, cfg: Config, id: Id, deliver: Deliveries, done: Id -> nat)
    requires id in q.events
    ensures Poll(q, cfg, [id], deliver, done) == Dispatch(q, cfg, id, deliver(id), done(id))
  {
    assert [id][..0] == [] && Poll(q, cfg, [id][..0], deliver, done) == q;
  }

  /**
   With the defaults, an event that failed four times before: one poll, and it is dead, but its copy
   is pending with as many failures behind it.
   */
  lemma FirstFailureDoubles(url: string)
    ensures var cfg, q := Config(60, 5), FailedFourTimes(url);
            var step := Step(0, Retry([0], (_: Id) => Requeued(4, 0), (_: Id) => 0));
            && Consistent(q) && Possible(q, step) && PollsInVain(step, 4)
            && var r := Do(q, cfg, step);
               r.events.Keys == {0, 1} && r.pending.Keys == {1} && r.dead.Keys == {0} && r.events[1].attempts == 4
  {
    var q := FailedFourTimes(url);
    var deliver, done: Id -> nat := (_: Id) => Requeued(4, 0), (_: Id) => 0;
    PollOne(q, Config(60, 5), 0, deliver, done);
    assert IsBatch(q, 0, [0]);
  }
}

/** What holds in every run of the queue, whatever the workers do and however often they crash: a crashed
    worker is one that takes no further steps. */
module QueueRuns {
  import opened Options
  import opened FiniteSets
  import opened JobQueue

  ghost predicate RowValid(r: Row, cap: nat) {
    match r.state
    case Pending => r.owner == None && r.attempts < cap
    case Processing => r.owner.Some? && r.lease.Some? && 1 <= r.attempts <= cap
    case Failed => r.attempts == cap
  }

  ghost predicate RowsValid(q: Queue, cap: nat) {
    forall id :: id in q.rows ==> id < q.nextId && RowValid(q.rows[id], cap) && q.rows[id].stamp < q.events
  }

  /** The unique index over pending rows. */
  ghost predicate OnePendingPerKey(q: Queue) {
    forall a, b, key :: PendingFor(q, key, a) && PendingFor(q, key, b) ==> a == b
  }

  ghost predicate Inv(q: Queue, cap: nat) {
    RowsValid(q, cap) && OnePendingPerKey(q)
  }

  lemma RowsValidNext(q: Queue, step: Step, cap: nat)
    requires cap >= 1 && RowsValid(q, cap) && Enabled(q, step, cap)
    ensures RowsValid(Apply(q, step, cap), cap)
  {
  }

  /** A row is pending after a step because it was before, or because it was inserted or sent back while no
      other row was pending for its key. */
  lemma PendingOrigin(q: Queue, step: Step, cap: nat, key: Key, id: nat)
    requires PendingFor(Apply(q, step, cap), key, id)
    ensures PendingFor(q, key, id)
      || (!HasPending(q, key) && step.Enqueue? && step.key == key && id == q.nextId)
      || (!HasPending(q, key) && step.Fail? && step.id == id)
  {
  }

  lemma OnePendingNext(q: Queue, step: Step, cap: nat)
    requires OnePendingPerKey(q)
    ensures OnePendingPerKey(Apply(q, step, cap))
  {
    var q' := Apply(q, step, cap);
    forall a, b, key | PendingFor(q', key, a) && PendingFor(q', key, b) ensures a == b {
      PendingOrigin(q, step, cap, key, a);
      PendingOrigin(q, step, cap, key, b);
    }
  }

  lemma InvNext(q: Queue, step: Step, cap: nat)
    requires cap >= 1 && Inv(q, cap) && Enabled(q, step, cap)
    ensures Inv(Apply(q, step, cap), cap)
  {
    RowsValidNext(q, step, cap);
    OnePendingNext(q, step, cap);
  }

  // ----- runs -----

  ghost predicate Run(states: seq<Queue>, steps: seq<Step>, cap: nat) {
    && |states| == |steps| + 1
    && states[0] == EMPTY
    && forall i :: 0 <= i < |steps| ==> Enabled(states[i], steps[i], cap) && states[i + 1] == Apply(states[i], steps[i], cap)
  }

  /** Every reachable state is well-formed and has at most one pending row per key. */
  lemma {:induction false} RunInv(states: seq<Queue>, steps: seq<Step>, cap: nat, n: nat)
    requires Run(states, steps, cap) && cap >= 1 && n <= |steps|
    ensures Inv(states[n], cap)
  {
    if n > 0 {
      RunInv(states, steps, cap, n - 1);
      InvNext(states[n - 1], steps[n - 1], cap);
    }
  }

  // ----- attempts -----

  ghost predicate Claims(step: Step, id: nat) {
    step.Claim? && id in step.ids
  }

  /** How often job `id` has been claimed in the first `n` steps. */
  ghost function ClaimCount(steps: seq<Step>, id: nat, n: nat): nat
    requires n <= |steps|
  {
    if n == 0 then 0 else ClaimCount(steps, id, n - 1) + (if Claims(steps[n - 1], id) then 1 else 0)
  }

  lemma AttemptsNext(q: Queue, step: Step, cap: nat, id: nat)
    requires Enabled(q, step, cap) && Inv(q, cap)
    ensures Claims(step, id) ==> id in q.rows && q.rows[id].attempts < cap
    ensures id in Apply(q, step, cap).rows ==>
      Apply(q, step, cap).rows[id].attempts
        == (if id in q.rows then q.rows[id].attempts else 0) + (if Claims(step, id) then 1 else 0)
    ensures id in Apply(q, step, cap).rows ==> id in q.rows || id == q.nextId
    ensures q.nextId <= Apply(q, step, cap).nextId
  {
  }

  /** The attempts column counts the claims of the job; they never exceed the cap, also after the row is gone. */
  lemma {:induction false} ClaimsBounded(states: seq<Queue>, steps: seq<Step>, cap: nat, id: nat, n: nat)
    requires Run(states, steps, cap) && cap >= 1 && n <= |steps|
    ensures ClaimCount(steps, id, n) <= cap
    ensures id in states[n].rows ==> states[n].rows[id].attempts == ClaimCount(steps, id, n)
    ensures id >= states[n].nextId ==> ClaimCount(steps, id, n) == 0
  {
    if n > 0 {
      ClaimsBounded(states, steps, cap, id, n - 1);
      RunInv(states, steps, cap, n - 1);
      AttemptsNext(states[n - 1], steps[n - 1], cap, id);
    }
  }

  // ----- fencing -----

  /** The owner of the latest claim of job `id` in the first `n` steps. */
  ghost function LatestClaimant(steps: seq<Step>, id: nat, n: nat): Option<Owner>
    requires n <= |steps|
  {
    if n == 0 then None
    else if Claims(steps[n - 1], id) then Some(steps[n - 1].owner)
    else LatestClaimant(steps, id, n - 1)
  }

  lemma OwnerNext(q: Queue, step: Step, cap: nat, id: nat)
    requires Enabled(q, step, cap) && Inv(q, cap)
    requires id in Apply(q, step, cap).rows && Apply(q, step, cap).rows[id].state == Processing
    ensures if Claims(step, id) then Apply(q, step, cap).rows[id].owner == Some(step.owner)
            else id in q.rows && q.rows[id].state == Processing && q.rows[id].owner == Apply(q, step, cap).rows[id].owner
  {
  }

  /** A job in processing is held by its latest claimant. */
  lemma {:induction false} HolderIsLatestClaimant(states: seq<Queue>, steps: seq<Step>, cap: nat, id: nat, n: nat)
    requires Run(states, steps, cap) && cap >= 1 && n <= |steps|
    requires id in states[n].rows && states[n].rows[id].state == Processing
    ensures states[n].rows[id].owner == LatestClaimant(steps, id, n)
  {
    if n > 0 {
      RunInv(states, steps, cap, n - 1);
      OwnerNext(states[n - 1], steps[n - 1], cap, id);
      if !Claims(steps[n - 1], id) {
        HolderIsLatestClaimant(states, steps, cap, id, n - 1);
      }
    }
  }

  /** Step `n` completes job `id`: its row is there before and gone after. */
  ghost predicate Completes(states: seq<Queue>, steps: seq<Step>, n: nat, id: nat)
    requires |states| == |steps| + 1 && n < |steps|
  {
    steps[n].Done? && steps[n].id == id && id in states[n].rows && id !in states[n + 1].rows
  }

  lemma {:induction false} GoneForever(states: seq<Queue>, steps: seq<Step>, cap: nat, id: nat, m: nat, n: nat)
    requires Run(states, steps, cap) && cap >= 1 && m <= n <= |steps|
    requires id < states[m].nextId && id !in states[m].rows
    ensures id < states[n].nextId && id !in states[n].rows
  {
    if m < n {
      GoneForever(states, steps, cap, id, m, n - 1);
      RunInv(states, steps, cap, n - 1);
      AttemptsNext(states[n - 1], steps[n - 1], cap, id);
    }
  }

  /** A job is completed at most once, and only by the owner of its latest claim. */
  lemma CompletedOnceByLatestClaimant(states: seq<Queue>, steps: seq<Step>, cap: nat, id: nat, n: nat)
    requires Run(states, steps, cap) && cap >= 1 && n < |steps| && Completes(states, steps, n, id)
    ensures LatestClaimant(steps, id, n) == Some(steps[n].owner)
    ensures forall m :: 0 <= m < |steps| && m != n ==> !Completes(states, steps, m, id)
  {
    HolderIsLatestClaimant(states, steps, cap, id, n);
    forall m | 0 <= m < |steps| && m != n ensures !Completes(states, steps, m, id) {
      var first, second := if m < n then m else n, if m < n then n else m;
      if Completes(states, steps, m, id) {
        RunInv(states, steps, cap, first);
        AttemptsNext(states[first], steps[first], cap, id);
        GoneForever(states, steps, cap, id, first + 1, second);
      }
    }
  }

  /** Whatever anyone but the latest claimant reports about a job leaves its row alone. */
  lemma StaleOwnerChangesNothing(states: seq<Queue>, steps: seq<Step>, cap: nat, id: nat, n: nat, stale: Owner,
                                 step: Step)
    requires Run(states, steps, cap) && cap >= 1 && n <= |steps|
    requires LatestClaimant(steps, id, n) != Some(stale)
    requires step == Done(id, stale) || step == Fail(id, stale) || (step.Renew? && step.owner == stale)
    ensures id in states[n].rows <==> id in Apply(states[n], step, cap).rows
    ensures id in states[n].rows ==> Apply(states[n], step, cap).rows[id] == states[n].rows[id]
  {
    if id in states[n].rows && states[n].rows[id].state == Processing {
      HolderIsLatestClaimant(states, steps, cap, id, n);
    }
  }

  // ----- no write is lost -----

  /** The number and the op of the latest trigger event on `key` in the first `n` steps. */
  ghost function LatestWrite(states: seq<Queue>, steps: seq<Step>, key: Key, n: nat): Option<(nat, Op)>
    requires n <= |steps| && |states| == |steps| + 1
  {
    if n == 0 then None
    else if steps[n - 1].Enqueue? && steps[n - 1].key == key then Some((states[n - 1].events, steps[n - 1].op))
    else LatestWrite(states, steps, key, n - 1)
  }

  /** The row of job `id` carries that event. */
  ghost predicate Carries(q: Queue, id: nat, write: Option<(nat, Op)>) {
    id in q.rows && Some((q.rows[id].stamp, q.rows[id].op)) == write
  }

  ghost predicate PendingWithLatest(states: seq<Queue>, steps: seq<Step>, key: Key, n: nat)
    requires n <= |steps| && |states| == |steps| + 1
  {
    exists id :: PendingFor(states[n], key, id) && Carries(states[n], id, LatestWrite(states, steps, key, n))
  }

  /** Step `j` claims a row for `key` that carries the latest event on it up to then. */
  ghost predicate ClaimsLatest(states: seq<Queue>, steps: seq<Step>, key: Key, j: nat)
    requires |states| == |steps| + 1 && j < |steps|
  {
    exists id :: Claims(steps[j], id) && PendingFor(states[j], key, id)
      && Carries(states[j], id, LatestWrite(states, steps, key, j))
  }

  /** Rows leave `pending` only through a claim. */
  lemma PendingLeavesByClaim(q: Queue, step: Step, cap: nat, key: Key, id: nat)
    requires Inv(q, cap) && Enabled(q, step, cap) && PendingFor(q, key, id)
    ensures PendingFor(Apply(q, step, cap), key, id) || Claims(step, id)
    ensures PendingFor(Apply(q, step, cap), key, id) && !(step.Enqueue? && step.key == key) ==>
      && Apply(q, step, cap).rows[id].stamp == q.rows[id].stamp
      && Apply(q, step, cap).rows[id].op == q.rows[id].op
  {
  }

  lemma EnqueueLeavesPending(q: Queue, key: Key, op: Op, cap: nat)
    requires Inv(q, cap)
    ensures exists id :: PendingFor(Enqueued(q, key, op), key, id) && Carries(Enqueued(q, key, op), id, Some((q.events, op)))
  {
    if HasPending(q, key) {
      var id :| id in q.rows && PendingFor(q, key, id);
      assert PendingFor(Enqueued(q, key, op), key, id);
    } else {
      assert PendingFor(Enqueued(q, key, op), key, q.nextId);
    }
  }

  /** Every trigger event is followed by a claim of a row carrying it or a later event on its key, or a pending
      row with the key's latest event is still queued. */
  lemma {:induction false} NoWriteLost(states: seq<Queue>, steps: seq<Step>, cap: nat, i: nat, n: nat)
    requires Run(states, steps, cap) && cap >= 1 && i < n <= |steps| && steps[i].Enqueue?
    ensures PendingWithLatest(states, steps, steps[i].key, n)
      || exists j :: i < j < n && ClaimsLatest(states, steps, steps[i].key, j)
  {
    var key, q, step := steps[i].key, states[n - 1], steps[n - 1];
    RunInv(states, steps, cap, n - 1);
    if step.Enqueue? && step.key == key {
      EnqueueLeavesPending(q, key, step.op, cap);
      assert states[n] == Enqueued(q, key, step.op);
      var id :| PendingFor(states[n], key, id) && Carries(states[n], id, Some((q.events, step.op)));
      assert Carries(states[n], id, LatestWrite(states, steps, key, n));
    } else {
      NoWriteLost(states, steps, cap, i, n - 1);
      if PendingWithLatest(states, steps, key, n - 1) {
        var id :| PendingFor(q, key, id) && Carries(q, id, LatestWrite(states, steps, key, n - 1));
        PendingLeavesByClaim(q, step, cap, key, id);
        if Claims(step, id) {
          assert ClaimsLatest(states, steps, key, n - 1);
        } else {
          assert PendingFor(states[n], key, id) && Carries(states[n], id, LatestWrite(states, steps, key, n));
        }
      }
    }
  }

  lemma {:induction false} EventsGrow(states: seq<Queue>, steps: seq<Step>, cap: nat, m: nat, n: nat)
    requires Run(states, steps, cap) && m <= n <= |steps|
    ensures states[m].events <= states[n].events
  {
    if m < n { EventsGrow(states, steps, cap, m, n - 1); }
  }

  /** The latest event after step `i` is that of step `i` or a later one. */
  lemma {:induction false} LatestIsNoOlder(states: seq<Queue>, steps: seq<Step>, cap: nat, i: nat, n: nat)
    requires Run(states, steps, cap) && i < n <= |steps| && steps[i].Enqueue?
    ensures var w := LatestWrite(states, steps, steps[i].key, n); w.Some? && w.value.0 >= states[i].events
  {
    if steps[n - 1].Enqueue? && steps[n - 1].key == steps[i].key {
      EventsGrow(states, steps, cap, i, n - 1);
    } else {
      LatestIsNoOlder(states, steps, cap, i, n - 1);
    }
  }

  // ----- what a retry carries -----

  ghost predicate UnclaimedCarryLatest(states: seq<Queue>, steps: seq<Step>, n: nat)
    requires n <= |steps| && |states| == |steps| + 1
  {
    forall id :: id in states[n].rows && states[n].rows[id].attempts == 0
      ==> Carries(states[n], id, LatestWrite(states, steps, states[n].rows[id].key, n))
  }

  lemma UnclaimedNext(q: Queue, step: Step, cap: nat, id: nat)
    requires cap >= 1 && Inv(q, cap) && Enabled(q, step, cap)
    requires id in Apply(q, step, cap).rows && Apply(q, step, cap).rows[id].attempts == 0
    ensures var r := Apply(q, step, cap).rows[id];
      if step.Enqueue? && step.key == r.key then r.stamp == q.events && r.op == step.op
      else id in q.rows && q.rows[id] == r
  {
    if id in q.rows && step.Enqueue? && step.key == q.rows[id].key {
      assert q.rows[id].state == Pending;
      assert PendingFor(q, step.key, id);
    }
  }

  /** A job claimed for the first time carries the latest event on its key. */
  lemma {:induction false} FirstClaimIsFresh(states: seq<Queue>, steps: seq<Step>, cap: nat, n: nat)
    requires Run(states, steps, cap) && cap >= 1 && n <= |steps|
    ensures UnclaimedCarryLatest(states, steps, n)
  {
    if n > 0 {
      FirstClaimIsFresh(states, steps, cap, n - 1);
      RunInv(states, steps, cap, n - 1);
      forall id | id in states[n].rows && states[n].rows[id].attempts == 0
        ensures Carries(states[n], id, LatestWrite(states, steps, states[n].rows[id].key, n))
      {
        UnclaimedNext(states[n - 1], steps[n - 1], cap, id);
      }
    }
  }

  /** Step `j` is the trigger event the row carries. */
  ghost predicate WrittenAt(states: seq<Queue>, steps: seq<Step>, r: Row, j: nat)
    requires |states| == |steps| + 1 && j < |steps|
  {
    steps[j] == Enqueue(r.key, r.op) && states[j].events == r.stamp
  }

  lemma WrittenNext(q: Queue, step: Step, cap: nat, id: nat)
    requires Enabled(q, step, cap) && id in Apply(q, step, cap).rows
    ensures var r := Apply(q, step, cap).rows[id];
      || (step == Enqueue(r.key, r.op) && r.stamp == q.events)
      || (id in q.rows && q.rows[id].key == r.key && q.rows[id].op == r.op && q.rows[id].stamp == r.stamp)
  {
  }

  lemma {:induction false} RowWasWritten(states: seq<Queue>, steps: seq<Step>, cap: nat, id: nat, n: nat)
    returns (j: nat)
    requires Run(states, steps, cap) && n <= |steps| && id in states[n].rows
    ensures j < n && WrittenAt(states, steps, states[n].rows[id], j)
  {
    WrittenNext(states[n - 1], steps[n - 1], cap, id);
    var r := states[n].rows[id];
    if steps[n - 1] == Enqueue(r.key, r.op) && r.stamp == states[n - 1].events {
      j := n - 1;
    } else {
      j := RowWasWritten(states, steps, cap, id, n - 1);
    }
  }

  ghost predicate EventOn(step: Step, key: Key) {
    step.Enqueue? && step.key == key
  }

  /** Step `last` is the latest trigger event on the key in the first `n` steps. */
  ghost predicate IsLastEvent(steps: seq<Step>, key: Key, last: nat, n: nat)
    requires n <= |steps|
  {
    last < n && EventOn(steps[last], key) && forall j :: last < j < n ==> !EventOn(steps[j], key)
  }

  lemma {:induction false} LatestIsLast(states: seq<Queue>, steps: seq<Step>, key: Key, last: nat, n: nat)
    requires |states| == |steps| + 1 && n <= |steps| && IsLastEvent(steps, key, last, n)
    ensures LatestWrite(states, steps, key, n) == Some((states[last].events, steps[last].op))
  {
    if last + 1 < n { LatestIsLast(states, steps, key, last, n - 1); }
  }

  /** No event on the key since step `m`: the key's jobs at `n` were there then and carry what they carried. */
  lemma {:induction false} CarriedSince(states: seq<Queue>, steps: seq<Step>, cap: nat, id: nat, m: nat, n: nat)
    requires Run(states, steps, cap) && m <= n <= |steps| && id in states[n].rows
    requires forall j :: m <= j < n ==> !EventOn(steps[j], states[n].rows[id].key)
    ensures id in states[m].rows
    ensures var before, now := states[m].rows[id], states[n].rows[id];
      before.key == now.key && before.op == now.op && before.stamp == now.stamp
  {
    if m < n {
      WrittenNext(states[n - 1], steps[n - 1], cap, id);
      assert !EventOn(steps[n - 1], states[n].rows[id].key);
      CarriedSince(states, steps, cap, id, m, n - 1);
    }
  }

  /** The trigger writes its event into the pending row of the key, and into no other. */
  lemma EventReachesPending(q: Queue, key: Key, op: Op, cap: nat, id: nat)
    requires Inv(q, cap) && id in Enqueued(q, key, op).rows && Enqueued(q, key, op).rows[id].key == key
    ensures Carries(Enqueued(q, key, op), id, Some((q.events, op))) <==> PendingFor(Enqueued(q, key, op), key, id)
    ensures PendingFor(Enqueued(q, key, op), key, id) <==> id !in q.rows || q.rows[id].state == Pending
  {
    if id in q.rows && q.rows[id].state == Pending { assert PendingFor(q, key, id); }
  }

  /** A job misses its key's latest event exactly when the event's trigger found it no longer pending: the conflict
      clause then does not apply to it, and the event goes to another row. */
  lemma StaleIffMissed(states: seq<Queue>, steps: seq<Step>, cap: nat, id: nat, last: nat, n: nat)
    requires Run(states, steps, cap) && cap >= 1 && n <= |steps| && id in states[n].rows
    requires IsLastEvent(steps, states[n].rows[id].key, last, n)
    ensures var key := states[n].rows[id].key;
      && (Carries(states[n], id, LatestWrite(states, steps, key, n)) <==> PendingFor(states[last + 1], key, id))
      && (PendingFor(states[last + 1], key, id) <==> id !in states[last].rows || states[last].rows[id].state == Pending)
  {
    hide Inv;
    var key := states[n].rows[id].key;
    LatestIsLast(states, steps, key, last, n);
    CarriedSince(states, steps, cap, id, last + 1, n);
    RunInv(states, steps, cap, last);
    assert states[last + 1] == Enqueued(states[last], key, steps[last].op);
    EventReachesPending(states[last], key, steps[last].op, cap, id);
  }

  lemma FailedNext(q: Queue, step: Step, cap: nat, id: nat)
    requires Inv(q, cap) && Enabled(q, step, cap) && id in q.rows && q.rows[id].state == JobState.Failed
    ensures id in Apply(q, step, cap).rows ==> Apply(q, step, cap).rows[id].state == JobState.Failed
  {
  }

  /** A dead letter stays one as long as its row exists. */
  lemma {:induction false} FailedForever(states: seq<Queue>, steps: seq<Step>, cap: nat, id: nat, m: nat, n: nat)
    requires Run(states, steps, cap) && cap >= 1 && m <= n <= |steps|
    requires id in states[m].rows && states[m].rows[id].state == JobState.Failed && id in states[n].rows
    ensures states[n].rows[id].state == JobState.Failed
    decreases n - m
  {
    if m < n {
      RunInv(states, steps, cap, m);
      FailedNext(states[m], steps[m], cap, id);
      AttemptsNext(states[m], steps[m], cap, id);
      if id !in states[m + 1].rows { GoneForever(states, steps, cap, id, m + 1, n); }
      FailedForever(states, steps, cap, id, m + 1, n);
    }
  }

  /** A claim is stale exactly when the job was being processed while the latest event on its key arrived. */
  lemma ClaimIsStaleIff(states: seq<Queue>, steps: seq<Step>, cap: nat, id: nat, last: nat, n: nat)
    requires Run(states, steps, cap) && cap >= 1 && n < |steps| && Claims(steps[n], id)
    requires id in states[n].rows && IsLastEvent(steps, states[n].rows[id].key, last, n)
    ensures !Carries(states[n], id, LatestWrite(states, steps, states[n].rows[id].key, n))
       <==> id in states[last].rows && states[last].rows[id].state == Processing
  {
    StaleIffMissed(states, steps, cap, id, last, n);
    if id in states[last].rows && states[last].rows[id].state == JobState.Failed {
      FailedForever(states, steps, cap, id, last, n);
      assert Claimable(states[n], cap, id);
    }
  }

  ghost predicate ProcessingFor(q: Queue, key: Key, id: nat) {
    id in q.rows && q.rows[id].state == Processing && q.rows[id].key == key
  }

  /** No event on the key arrives, in the first `n` steps, while one of its jobs is being processed. */
  ghost predicate QuietWhileProcessing(states: seq<Queue>, steps: seq<Step>, key: Key, n: nat)
    requires |states| == |steps| + 1 && n <= |steps|
  {
    forall j, id :: 0 <= j < n && EventOn(steps[j], key) ==> !ProcessingFor(states[j], key, id)
  }

  /** Then every claim on the key carries the latest event, retries included. */
  lemma QuietClaimsAreFresh(states: seq<Queue>, steps: seq<Step>, cap: nat, id: nat, n: nat)
    requires Run(states, steps, cap) && cap >= 1 && n < |steps| && Claims(steps[n], id) && id in states[n].rows
    requires QuietWhileProcessing(states, steps, states[n].rows[id].key, n)
    ensures Carries(states[n], id, LatestWrite(states, steps, states[n].rows[id].key, n))
  {
    var key := states[n].rows[id].key;
    var w := RowWasWritten(states, steps, cap, id, n);
    var last := LastEventFrom(steps, key, w, n);
    ClaimIsStaleIff(states, steps, cap, id, last, n);
    if id in states[last].rows {
      JobsKeepPlace(states, steps, cap, id, last, n);
      assert EventOn(steps[last], key) && !ProcessingFor(states[last], key, id);
    }
  }

  lemma {:induction false} LastEventFrom(steps: seq<Step>, key: Key, w: nat, n: nat) returns (last: nat)
    requires w < n <= |steps| && EventOn(steps[w], key)
    ensures IsLastEvent(steps, key, last, n)
  {
    if EventOn(steps[n - 1], key) {
      last := n - 1;
    } else {
      last := LastEventFrom(steps, key, w, n - 1);
    }
  }

  // ----- first in, first out -----

  lemma PlaceNext(q: Queue, step: Step, cap: nat, id: nat)
    requires Inv(q, cap) && id in q.rows && id in Apply(q, step, cap).rows
    ensures Apply(q, step, cap).rows[id].key == q.rows[id].key
    ensures Apply(q, step, cap).rows[id].enqueuedAt == q.rows[id].enqueuedAt
  {
  }

  /** A job keeps its key and its place in line, however often events touch it and however often it is retried. */
  lemma {:induction false} JobsKeepPlace(states: seq<Queue>, steps: seq<Step>, cap: nat, id: nat, m: nat, n: nat)
    requires Run(states, steps, cap) && cap >= 1 && m <= n <= |steps|
    requires id in states[m].rows && id in states[n].rows
    ensures states[n].rows[id].key == states[m].rows[id].key
    ensures states[n].rows[id].enqueuedAt == states[m].rows[id].enqueuedAt
    decreases n - m
  {
    if m < n {
      RunInv(states, steps, cap, m);
      AttemptsNext(states[m], steps[m], cap, id);
      if id !in states[m + 1].rows { GoneForever(states, steps, cap, id, m + 1, n); }
      PlaceNext(states[m], steps[m], cap, id);
      JobsKeepPlace(states, steps, cap, id, m + 1, n);
    }
  }

  /** Step `j` is a claim that could have taken job `id` and did not. */
  ghost predicate PassesOver(states: seq<Queue>, steps: seq<Step>, cap: nat, id: nat, j: nat)
    requires |states| == |steps| + 1 && j < |steps|
  {
    && steps[j].Claim? && steps[j].batch >= 1
    && Claimable(states[j], cap, id) && id !in steps[j].locked && id !in steps[j].ids
  }

  ghost function PassCount(states: seq<Queue>, steps: seq<Step>, cap: nat, id: nat, n: nat): nat
    requires |states| == |steps| + 1 && n <= |steps|
  {
    if n == 0 then 0
    else PassCount(states, steps, cap, id, n - 1) + (if PassesOver(states, steps, cap, id, n - 1) then 1 else 0)
  }

  /** Up to step `n`, a claim that passes over `id` takes jobs of the set only. */
  ghost predicate AheadOf(states: seq<Queue>, steps: seq<Step>, cap: nat, id: nat, ahead: set<nat>, n: nat)
    requires |states| == |steps| + 1 && n <= |steps|
  {
    forall j, x :: 0 <= j < n && PassesOver(states, steps, cap, id, j) && Claims(steps[j], x) ==> x in ahead
  }

  /** The jobs numbered below `k` that were ever at least as old as job `id` beside it. */
  ghost function Elders(states: seq<Queue>, id: nat, n: nat, k: nat): set<nat>
    requires n <= |states|
  {
    set x | 0 <= x < k && Elder(states, id, n, x)
  }

  ghost predicate Elder(states: seq<Queue>, id: nat, n: nat, x: nat)
    requires n <= |states|
  {
    exists j :: 0 <= j < n && AtLeastAsOld(states[j], x, id)
  }

  ghost predicate AtLeastAsOld(q: Queue, x: nat, id: nat) {
    x in q.rows && id in q.rows && q.rows[x].enqueuedAt <= q.rows[id].enqueuedAt
  }

  /** Only jobs at least as old are taken before a job that could have been. */
  lemma EldersGoFirst(states: seq<Queue>, steps: seq<Step>, cap: nat, id: nat, n: nat)
    requires Run(states, steps, cap) && cap >= 1 && n <= |steps|
    ensures AheadOf(states, steps, cap, id, Elders(states, id, n, states[n].nextId), n)
  {
    forall j, x | 0 <= j < n && PassesOver(states, steps, cap, id, j) && Claims(steps[j], x)
      ensures x in Elders(states, id, n, states[n].nextId)
    {
      assert AtLeastAsOld(states[j], x, id);
      RunInv(states, steps, cap, j);
      NumbersGrow(states, steps, cap, j, n);
    }
  }

  lemma {:induction false} NumbersGrow(states: seq<Queue>, steps: seq<Step>, cap: nat, m: nat, n: nat)
    requires Run(states, steps, cap) && m <= n <= |steps|
    ensures states[m].nextId <= states[n].nextId
  {
    if m < n { NumbersGrow(states, steps, cap, m, n - 1); }
  }

  /** The claims of the set's jobs below `k` in the first `n` steps. */
  ghost function SetClaims(steps: seq<Step>, ids: set<nat>, k: nat, n: nat): nat
    requires n <= |steps|
  {
    if k == 0 then 0 else SetClaims(steps, ids, k - 1, n) + (if k - 1 in ids then ClaimCount(steps, k - 1, n) else 0)
  }

  lemma {:induction false} SetClaimsGrow(steps: seq<Step>, ids: set<nat>, k: nat, n: nat, x: nat)
    requires 0 < n <= |steps|
    ensures SetClaims(steps, ids, k, n) >= SetClaims(steps, ids, k, n - 1)
    ensures x < k && x in ids && Claims(steps[n - 1], x) ==> SetClaims(steps, ids, k, n) > SetClaims(steps, ids, k, n - 1)
  {
    hide Claims;
    if k > 0 { SetClaimsGrow(steps, ids, k - 1, n, x); }
  }

  lemma {:induction false} SetClaimsBounded(states: seq<Queue>, steps: seq<Step>, cap: nat, ids: set<nat>, k: nat, n: nat)
    requires Run(states, steps, cap) && cap >= 1 && n <= |steps|
    ensures SetClaims(steps, ids, k, n) <= cap * |Under(ids, k)|
  {
    hide Run, ClaimCount;
    if k == 0 {
      assert Under(ids, 0) == {};
    } else {
      SetClaimsBounded(states, steps, cap, ids, k - 1, n);
      ClaimsBounded(states, steps, cap, k - 1, n);
      if k - 1 in ids {
        assert Under(ids, k) == Under(ids, k - 1) + {k - 1};
        TimesNext(cap, |Under(ids, k - 1)|);
      } else {
        assert Under(ids, k) == Under(ids, k - 1);
      }
    }
  }

  ghost function Under(ids: set<nat>, k: nat): set<nat> {
    set x | x in ids && x < k
  }

  lemma {:induction false} PassesCostClaims(states: seq<Queue>, steps: seq<Step>, cap: nat, id: nat, ahead: set<nat>, k: nat,
                                            n: nat)
    requires Run(states, steps, cap) && n <= |steps| && AheadOf(states, steps, cap, id, ahead, n)
    requires forall x :: x in ahead ==> x < k
    ensures PassCount(states, steps, cap, id, n) <= SetClaims(steps, ahead, k, n)
  {
    if n > 0 {
      PassesCostClaims(states, steps, cap, id, ahead, k, n - 1);
      hide SetClaims;
      if PassesOver(states, steps, cap, id, n - 1) {
        assert |steps[n - 1].ids| >= 1;
        var x :| x in steps[n - 1].ids;
        assert PassesOver(states, steps, cap, id, n - 1) && Claims(steps[n - 1], x);
        assert x in ahead && x < k;
        SetClaimsGrow(steps, ahead, k, n, x);
      } else {
        SetClaimsGrow(steps, ahead, k, n, 0);
      }
    }
  }

  /** No starvation: claims that could take a job pass over it at most cap times for each job at least as old. */
  lemma PassedOverBound(states: seq<Queue>, steps: seq<Step>, cap: nat, id: nat, n: nat)
    requires Run(states, steps, cap) && cap >= 1 && n <= |steps|
    ensures PassCount(states, steps, cap, id, n) <= cap * |Elders(states, id, n, states[n].nextId)|
  {
    hide PassCount, SetClaims, AheadOf;
    var k := states[n].nextId;
    var ahead := Elders(states, id, n, k);
    EldersGoFirst(states, steps, cap, id, n);
    PassesCostClaims(states, steps, cap, id, ahead, k, n);
    SetClaimsBounded(states, steps, cap, ahead, k, n);
    assert Under(ahead, k) == ahead;
  }

  const KEY := Key(1, "42")
  const STALE_STEPS: seq<Step> :=
    [Enqueue(KEY, Delete), Claim("a", {0}, 10, 120, {}), Enqueue(KEY, Upsert),
     Claim("b", {1}, 10, 120, {}), Done(1, "b"), Tick(121), Claim("b", {0}, 10, 120, {})]

  function StaleJob(owner: Option<Owner>, attempts: nat, lease: Option<int>): Row {
    Row(KEY, Delete, if owner.None? then Pending else Processing, attempts, owner, lease, 0, 0)
  }

  function FreshJob(owner: Option<Owner>, attempts: nat, lease: Option<int>): Row {
    Row(KEY, Upsert, if owner.None? then Pending else Processing, attempts, owner, lease, 0, 1)
  }

  const STALE_STATES: seq<Queue> :=
    [EMPTY,
     Queue(map[0 := StaleJob(None, 0, None)], 1, 0, 1),
     Queue(map[0 := StaleJob(Some("a"), 1, Some(120))], 1, 0, 1),
     Queue(map[0 := StaleJob(Some("a"), 1, Some(120)), 1 := FreshJob(None, 0, None)], 2, 0, 2),
     Queue(map[0 := StaleJob(Some("a"), 1, Some(120)), 1 := FreshJob(Some("b"), 1, Some(120))], 2, 0, 2),
     Queue(map[0 := StaleJob(Some("a"), 1, Some(120))], 2, 0, 2),
     Queue(map[0 := StaleJob(Some("a"), 1, Some(120))], 2, 121, 2),
     Queue(map[0 := StaleJob(Some("b"), 2, Some(241))], 2, 121, 2)]

  lemma StaleEnqueues()
    ensures Enqueued(STALE_STATES[0], KEY, Delete) == STALE_STATES[1]
    ensures Enqueued(STALE_STATES[2], KEY, Upsert) == STALE_STATES[3]
  {
    assert !HasPending(STALE_STATES[0], KEY);
    assert !HasPending(STALE_STATES[2], KEY);
  }

  lemma StaleFirstClaim()
    ensures ClaimAllowed(STALE_STATES[1], 5, {0}, 10, {}) && ClaimedBy(STALE_STATES[1], "a", {0}, 120) == STALE_STATES[2]
  {
    assert ClaimedBy(STALE_STATES[1], "a", {0}, 120).rows == STALE_STATES[2].rows;
  }

  lemma StaleSecondClaim()
    ensures ClaimAllowed(STALE_STATES[3], 5, {1}, 10, {}) && ClaimedBy(STALE_STATES[3], "b", {1}, 120) == STALE_STATES[4]
  {
    assert ClaimedBy(STALE_STATES[3], "b", {1}, 120).rows == STALE_STATES[4].rows;
  }

  lemma StaleRetry()
    ensures ClaimAllowed(STALE_STATES[6], 5, {0}, 10, {}) && ClaimedBy(STALE_STATES[6], "b", {0}, 120) == STALE_STATES[7]
  {
    assert ClaimedBy(STALE_STATES[6], "b", {0}, 120).rows == STALE_STATES[7].rows;
  }

  lemma StaleCompletion()
    ensures Completed(STALE_STATES[4], 1, "b") == STALE_STATES[5]
  {
    assert Completed(STALE_STATES[4], 1, "b").rows == STALE_STATES[5].rows;
  }

  lemma StaleRun()
    ensures Run(STALE_STATES, STALE_STEPS, 5)
  {
    hide Enqueued, ClaimAllowed, ClaimedBy, Completed;
    StaleEnqueues();
    StaleFirstClaim();
    StaleSecondClaim();
    StaleRetry();
    StaleCompletion();
  }

  lemma StaleWrites()
    ensures LatestWrite(STALE_STATES, STALE_STEPS, KEY, 4) == Some((1, Upsert))
    ensures LatestWrite(STALE_STATES, STALE_STEPS, KEY, 6) == Some((1, Upsert))
  {
    assert LatestWrite(STALE_STATES, STALE_STEPS, KEY, 3) == Some((1, Upsert));
    assert LatestWrite(STALE_STATES, STALE_STEPS, KEY, 4) == Some((1, Upsert));
    assert LatestWrite(STALE_STATES, STALE_STEPS, KEY, 5) == Some((1, Upsert));
  }

  /** A retried job need not: a delete whose worker crashed is claimed again after the newer upsert on the same
      key has been completed. */
  lemma RetryMayBeStale() returns (states: seq<Queue>, steps: seq<Step>, key: Key)
    ensures Run(states, steps, 5) && |steps| == 7
    ensures Completes(states, steps, 4, 1) && Carries(states[4], 1, LatestWrite(states, steps, key, 4))
    ensures Claims(steps[6], 0) && 0 in states[6].rows && states[6].rows[0].key == key
    ensures states[6].rows[0].op == Delete
    ensures LatestWrite(states, steps, key, 6) == Some((states[4].rows[1].stamp, Upsert))
  {
    states, steps, key := STALE_STATES, STALE_STEPS, KEY;
    StaleRun();
    StaleWrites();
  }

  // ----- no job is stuck -----

  /** Once the clock has passed a live job's lease, a worker may claim it or the reaper will retire it. */
  lemma NoLimbo(q: Queue, cap: nat, id: nat)
    requires Inv(q, cap) && id in q.rows && q.rows[id].state != JobState.Failed
    requires q.rows[id].lease.Some? ==> q.rows[id].lease.value < q.clock
    ensures Claimable(q, cap, id) != Reapable(q, cap, id)
    ensures Reapable(q, cap, id) ==> Apply(q, Reap, cap).rows[id].state == JobState.Failed
    ensures Claimable(q, cap, id) ==> exists locked :: ClaimAllowed(q, cap, {id}, 1, locked)
  {
    var locked := q.rows.Keys - {id};
    assert ClaimAllowed(q, cap, {id}, 1, locked) <== Claimable(q, cap, id);
  }

  // ----- the dead-letter bound -----

  ghost function DeadLetters(q: Queue): set<nat> {
    set id | id in q.rows && q.rows[id].state == JobState.Failed
  }

  lemma {:induction false} Extremes(s: set<nat>) returns (low: nat, high: nat)
    requires s != {}
    ensures low in s && high in s && forall x :: x in s ==> low <= x <= high
  {
    var x :| x in s;
    if s == {x} {
      low, high := x, x;
    } else {
      assert forall y :: y in s ==> y == x || y in s - {x};
      assert s - {x} != {};
      var l, h := Extremes(s - {x});
      low, high := if x < l then x else l, if x > h then x else h;
    }
  }

  /** Purging keeps exactly the newest `keep` dead letters, or all of them when there are fewer. */
  lemma PurgeKeepsNewest(q: Queue, keep: nat)
    ensures var left := DeadLetters(Purged(q, keep));
      && left <= DeadLetters(q)
      && |left| == (if |DeadLetters(q)| < keep then |DeadLetters(q)| else keep)
      && forall a, b :: a in left && b in DeadLetters(q) - left ==> b < a
  {
    var all, left := DeadLetters(q), DeadLetters(Purged(q, keep));
    assert forall id :: id in all ==> (id in left <==> |FailedAbove(q, id)| < keep);
    forall a, b | a in left && b in all - left ensures b < a {
      if a < b { SubsetSize(FailedAbove(q, b), FailedAbove(q, a)); }
    }
    if left != {} {
      var low, high := Extremes(left);
      assert left - {low} <= FailedAbove(q, low);
      SubsetSize(left - {low}, FailedAbove(q, low));
    }
    if all - left != {} {
      var low, high := Extremes(all - left);
      forall id | id in FailedAbove(q, high) ensures id in left {
        assert id in all && id !in all - left;
      }
      assert high in all && high !in left;
      assert keep <= |FailedAbove(q, high)|;
      SubsetSize(FailedAbove(q, high), left);
      SubsetSize(left, all);
    } else {
      assert left == all;
    }
  }

  // ----- termination -----

  /** How many more steps a row can take part in. */
  ghost function Weight(r: Row, cap: nat): int {
    match r.state
    case Pending => 3 * (cap - r.attempts) + 1
    case Processing => 3 * (cap - r.attempts) + 2
    case Failed => 1
  }

  ghost function RowWeight(q: Queue, cap: nat, id: nat): int {
    if id in q.rows then Weight(q.rows[id], cap) else 0
  }

  ghost function Work(q: Queue, cap: nat, n: nat): int {
    if n == 0 then 0 else Work(q, cap, n - 1) + RowWeight(q, cap, n - 1)
  }

  /** Claims, reports, reaping and purging that change a row. */
  ghost predicate Effective(q: Queue, step: Step, cap: nat) {
    !step.Enqueue? && !step.Renew? && !step.Tick? && Apply(q, step, cap).rows != q.rows
  }

  lemma WeightNext(q: Queue, step: Step, cap: nat, id: nat)
    requires Inv(q, cap) && Enabled(q, step, cap)
    ensures RowWeight(q, cap, id) >= 0
    ensures !(step.Enqueue? && id == q.nextId) ==>
      RowWeight(Apply(q, step, cap), cap, id) <= RowWeight(q, cap, id)
    ensures step.Enqueue? && id == q.nextId ==>
      RowWeight(q, cap, id) == 0 && RowWeight(Apply(q, step, cap), cap, id) <= 3 * cap + 1
    ensures !step.Enqueue? && !step.Renew? && !step.Tick? && id in q.rows
        && (id !in Apply(q, step, cap).rows || Apply(q, step, cap).rows[id] != q.rows[id])
      ==> RowWeight(Apply(q, step, cap), cap, id) < RowWeight(q, cap, id)
  {
  }

  lemma {:induction false} WorkNext(q: Queue, step: Step, cap: nat, n: nat)
    requires Inv(q, cap) && Enabled(q, step, cap)
    ensures Work(Apply(q, step, cap), cap, n) <= Work(q, cap, n) + (if step.Enqueue? && n > q.nextId then 3 * cap + 1 else 0)
    ensures (!step.Enqueue? && !step.Renew? && !step.Tick?
        && exists id :: id < n && id in q.rows
             && (id !in Apply(q, step, cap).rows || Apply(q, step, cap).rows[id] != q.rows[id]))
      ==> Work(Apply(q, step, cap), cap, n) < Work(q, cap, n)
  {
    if n > 0 {
      WorkNext(q, step, cap, n - 1);
      WeightNext(q, step, cap, n - 1);
    }
  }

  lemma {:induction false} WorkNonNegative(q: Queue, cap: nat, n: nat)
    requires Inv(q, cap)
    ensures Work(q, cap, n) >= 0
  {
    if n > 0 {
      WorkNonNegative(q, cap, n - 1);
    }
  }

  lemma {:induction false} WorkBeyond(q: Queue, cap: nat, m: nat, n: nat)
    requires Inv(q, cap) && q.nextId <= m <= n
    ensures Work(q, cap, n) == Work(q, cap, m)
  {
    if m < n { WorkBeyond(q, cap, m, n - 1); }
  }

  lemma EffectiveTouchesARow(q: Queue, step: Step, cap: nat)
    requires Inv(q, cap) && Enabled(q, step, cap) && Effective(q, step, cap)
    ensures exists id :: id < q.nextId && id in q.rows
             && (id !in Apply(q, step, cap).rows || Apply(q, step, cap).rows[id] != q.rows[id])
  {
    var q' := Apply(q, step, cap);
    assert q'.rows.Keys <= q.rows.Keys;
    if forall id :: id in q.rows ==> id in q'.rows && q'.rows[id] == q.rows[id] {
      SameRows(q'.rows, q.rows);
      assert false;
    }
  }

  lemma SameRows(a: map<nat, Row>, b: map<nat, Row>)
    requires a.Keys <= b.Keys && forall id :: id in b ==> id in a && a[id] == b[id]
    ensures a == b
  {
  }

  ghost function EffectiveCount(states: seq<Queue>, steps: seq<Step>, cap: nat, n: nat): nat
    requires n <= |steps| && |states| == |steps| + 1
  {
    if n == 0 then 0 else
      EffectiveCount(states, steps, cap, n - 1) + (if Effective(states[n - 1], steps[n - 1], cap) then 1 else 0)
  }

  ghost function EnqueueCount(steps: seq<Step>, n: nat): nat
    requires n <= |steps|
  {
    if n == 0 then 0 else EnqueueCount(steps, n - 1) + (if steps[n - 1].Enqueue? then 1 else 0)
  }

  ghost function Remaining(q: Queue, cap: nat): int {
    Work(q, cap, q.nextId)
  }

  /** A step other than a trigger event uses up work when it is effective, and adds none. */
  lemma StepUsesWork(q: Queue, step: Step, cap: nat)
    requires Inv(q, cap) && Inv(Apply(q, step, cap), cap) && Enabled(q, step, cap)
    ensures (if Effective(q, step, cap) then 1 else 0)
         <= Remaining(q, cap) - Remaining(Apply(q, step, cap), cap) + (if step.Enqueue? then 3 * cap + 1 else 0)
  {
    hide Inv, Work;
    var top := Apply(q, step, cap).nextId;
    WorkNext(q, step, cap, top);
    WorkBeyond(q, cap, q.nextId, top);
    if Effective(q, step, cap) { EffectiveTouchesARow(q, step, cap); }
  }

  /** From any point on, each trigger event pays for at most `3 cap + 1` effective steps: without new events
      the queue comes to rest after as many steps as it had work left. */
  lemma {:induction false} WorkBetween(states: seq<Queue>, steps: seq<Step>, cap: nat, m: nat, n: nat)
    requires Run(states, steps, cap) && cap >= 1 && m <= n <= |steps|
    ensures EffectiveCount(states, steps, cap, n) - EffectiveCount(states, steps, cap, m)
         <= Remaining(states[m], cap) - Remaining(states[n], cap)
            + (3 * cap + 1) * (EnqueueCount(steps, n) - EnqueueCount(steps, m))
    ensures 0 <= Remaining(states[n], cap)
  {
    hide Inv, Work, Apply, Enabled, Effective;
    RunInv(states, steps, cap, n);
    WorkNonNegative(states[n], cap, states[n].nextId);
    if m < n {
      RunInv(states, steps, cap, n - 1);
      WorkBetween(states, steps, cap, m, n - 1);
      StepUsesWork(states[n - 1], steps[n - 1], cap);
      TimesNext(3 * cap + 1, EnqueueCount(steps, n - 1) - EnqueueCount(steps, m));
    }
  }

  /** Over a whole run: at most `3 cap + 1` effective steps per trigger event. */
  lemma WorkIsBounded(states: seq<Queue>, steps: seq<Step>, cap: nat, n: nat)
    requires Run(states, steps, cap) && cap >= 1 && n <= |steps|
    ensures EffectiveCount(states, steps, cap, n) <= (3 * cap + 1) * EnqueueCount(steps, n)
  {
    WorkBetween(states, steps, cap, 0, n);
  }

  lemma TimesNext(a: int, b: int)
    ensures a * (b + 1) == a * b + a
  {
  }
}

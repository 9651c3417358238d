/** When jobs of the queue are taken: in the order their events arrived, by one worker at a time, and not before a lease
    or a backoff is over. */
module QueueOrder {
  import opened Options
  import opened JobQueue
  import opened Powers
  import opened QueueRuns

  // ----- arrival -----

  /** Step `j` is the trigger event that inserts job `id`. */
  ghost predicate Inserts(states: seq<Queue>, steps: seq<Step>, id: nat, j: nat)
    requires |states| == |steps| + 1
  {
    j < |steps| && steps[j].Enqueue? && id !in states[j].rows && id in states[j + 1].rows
  }

  lemma ArrivalNext(q: Queue, step: Step, cap: nat, id: nat)
    requires Inv(q, cap) && id in Apply(q, step, cap).rows && id !in q.rows
    ensures step.Enqueue? && id == q.nextId && Apply(q, step, cap).rows[id].enqueuedAt == q.clock
    ensures Apply(q, step, cap).rows[id].key == step.key && Apply(q, step, cap).nextId == id + 1
  {
  }

  lemma {:induction false} ClockRuns(states: seq<Queue>, steps: seq<Step>, cap: nat, m: nat, n: nat)
    requires Run(states, steps, cap) && m <= n <= |steps|
    ensures states[m].clock <= states[n].clock
  {
    if m < n { ClockRuns(states, steps, cap, m, n - 1); }
  }

  /** Every job was inserted by one event, for its key, and its place in line is the time of that event. */
  lemma {:induction false} ArrivalOf(states: seq<Queue>, steps: seq<Step>, cap: nat, id: nat, n: nat) returns (j: nat)
    requires Run(states, steps, cap) && cap >= 1 && n <= |steps| && id in states[n].rows
    ensures j < n && Inserts(states, steps, id, j)
    ensures steps[j].key == states[n].rows[id].key && states[n].rows[id].enqueuedAt == states[j].clock
    ensures states[j].nextId == id && states[j + 1].nextId == id + 1
  {
    RunInv(states, steps, cap, n - 1);
    if id in states[n - 1].rows {
      j := ArrivalOf(states, steps, cap, id, n - 1);
      JobsKeepPlace(states, steps, cap, id, n - 1, n);
    } else {
      j := n - 1;
      ArrivalNext(states[j], steps[j], cap, id);
    }
  }

  lemma InsertedOnce(states: seq<Queue>, steps: seq<Step>, cap: nat, id: nat, i: nat, j: nat)
    requires Run(states, steps, cap) && cap >= 1 && Inserts(states, steps, id, i) && Inserts(states, steps, id, j)
    ensures i == j
  {
    var first, second := if i < j then i else j, if i < j then j else i;
    RunInv(states, steps, cap, first);
    RunInv(states, steps, cap, second);
    ArrivalNext(states[first], steps[first], cap, id);
    ArrivalNext(states[second], steps[second], cap, id);
    if first < second { NumbersGrow(states, steps, cap, first + 1, second); }
  }

  /** Jobs are numbered in the order of arrival, and a job that arrived earlier is never the younger one. */
  lemma NumbersAreArrivals(states: seq<Queue>, steps: seq<Step>, cap: nat, a: nat, b: nat, n: nat)
    requires Run(states, steps, cap) && cap >= 1 && n <= |steps| && a in states[n].rows && b in states[n].rows && a < b
    ensures exists i, j :: 0 <= i < j < n && Inserts(states, steps, a, i) && Inserts(states, steps, b, j)
    ensures states[n].rows[a].enqueuedAt <= states[n].rows[b].enqueuedAt <= states[n].clock
  {
    var i := ArrivalOf(states, steps, cap, a, n);
    var j := ArrivalOf(states, steps, cap, b, n);
    if j <= i {
      NumbersGrow(states, steps, cap, j + 1, i + 1);
    }
    ClockRuns(states, steps, cap, i, j);
    ClockRuns(states, steps, cap, j, n);
  }

  /** First in, first out: when a claim passes over a job it could have taken, every job it does take arrived earlier, or
      in the same second. */
  lemma ClaimsFollowArrival(states: seq<Queue>, steps: seq<Step>, cap: nat, taken: nat, passed: nat, i: nat, j: nat,
                            n: nat)
    requires Run(states, steps, cap) && cap >= 1 && n < |steps|
    requires Claims(steps[n], taken) && PassesOver(states, steps, cap, passed, n)
    requires Inserts(states, steps, taken, i) && Inserts(states, steps, passed, j)
    ensures i < j || states[i].clock == states[j].clock
  {
    assert Claimable(states[n], cap, taken);
    var i' := ArrivalOf(states, steps, cap, taken, n);
    var j' := ArrivalOf(states, steps, cap, passed, n);
    InsertedOnce(states, steps, cap, taken, i, i');
    InsertedOnce(states, steps, cap, passed, j, j');
    if j <= i { ClockRuns(states, steps, cap, j, i); }
  }

  // ----- leases -----

  /** What a reported failure does: nothing unless the job is the owner's; at the cap the job is dead, whatever else is
      queued; below it the job is pending again, unless another one is pending for its key, and then nothing happens. */
  lemma FailureOutcome(q: Queue, cap: nat, id: nat, owner: Owner)
    requires Inv(q, cap)
    ensures var q' := Apply(q, Step.Fail(id, owner), cap);
      if !HeldBy(q, id, owner) then q' == q
      else
        var r := q.rows[id];
        var taken := exists other :: other in q.rows && q.rows[other].key == r.key && q.rows[other].state == Pending;
        if r.attempts < cap && taken then q' == q
        else
          && q'.rows.Keys == q.rows.Keys
          && (forall other :: other in q.rows && other != id ==> q'.rows[other] == q.rows[other])
          && q'.rows[id].state == (if r.attempts < cap then Pending else JobState.Failed)
          && q'.rows[id].owner == None && q'.rows[id].attempts == r.attempts
  {
  }

  /** The retry delay: doubling from one second, and 300 seconds from the ninth failure on. */
  lemma BackoffTable(attempts: nat)
    ensures attempts >= 9 ==> Backoff(attempts) == 300
    ensures attempts < 9 ==> Backoff(attempts) == [1, 2, 4, 8, 16, 32, 64, 128, 256][attempts]
  {
    assert Pow2(4) == 16;
    assert Pow2(8) == 256;
    assert Pow2(12) == 4096;
    if attempts < 4 {
    } else if attempts < 8 {
    } else if attempts < 12 {
      assert Pow2(9) == 512 && Pow2(10) == 1024 && Pow2(11) == 2048;
    }
  }

  /** Step `m` fixes when job `id` may be claimed next: a claim and its renewal by the length of the lease, a failure by
      the backoff. */
  ghost predicate Holds(states: seq<Queue>, steps: seq<Step>, cap: nat, id: nat, m: nat, until: int)
    requires |states| == |steps| + 1 && m < |steps|
  {
    var q, step := states[m], steps[m];
    || (Claims(step, id) && until == q.clock + step.leaseSecs)
    || (step.Renew? && id in step.jobs && HeldBy(q, id, step.owner) && until == q.clock + step.leaseSecs)
    || (step.Fail? && step.id == id && HeldBy(q, id, step.owner) && q.rows[id].attempts < cap
        && !HasPending(q, q.rows[id].key) && until == q.clock + Backoff(q.rows[id].attempts))
  }

  /** The step claims, renews, completes or fails job `id`, or tries to. */
  predicate Concerns(step: Step, id: nat) {
    match step
    case Claim(_, ids, _, _, _) => id in ids
    case Renew(jobs, _, _) => id in jobs
    case Done(other, _) => other == id
    case Fail(other, _) => other == id
    case _ => false
  }

  /** Waiting until then: claimable only afterwards, and dead at the cap. */
  ghost predicate WaitsUntil(q: Queue, cap: nat, id: nat, until: int) {
    id in q.rows ==>
      var r := q.rows[id];
      if r.state == JobState.Failed then r.attempts >= cap else r.lease == Some(until)
  }

  lemma WaitBegins(states: seq<Queue>, steps: seq<Step>, cap: nat, id: nat, m: nat, until: int)
    requires Run(states, steps, cap) && m < |steps| && Inv(states[m], cap) && Holds(states, steps, cap, id, m, until)
    ensures WaitsUntil(states[m + 1], cap, id, until) && id in states[m + 1].rows
  {
  }

  lemma WaitGoesOn(q: Queue, step: Step, cap: nat, id: nat, until: int)
    requires Inv(q, cap) && Enabled(q, step, cap) && !Concerns(step, id) && id in q.rows && WaitsUntil(q, cap, id, until)
    ensures WaitsUntil(Apply(q, step, cap), cap, id, until)
  {
  }

  lemma {:induction false} WaitLasts(states: seq<Queue>, steps: seq<Step>, cap: nat, id: nat, m: nat, n: nat, until: int)
    requires Run(states, steps, cap) && cap >= 1 && m < n <= |steps| && Holds(states, steps, cap, id, m, until)
    requires forall j :: m < j < n ==> !Concerns(steps[j], id)
    requires id in states[n].rows
    ensures WaitsUntil(states[n], cap, id, until)
  {
    hide Holds, WaitsUntil, Inv;
    RunInv(states, steps, cap, m);
    WaitBegins(states, steps, cap, id, m, until);
    if m + 1 < n {
      RunInv(states, steps, cap, n - 1);
      RunInv(states, steps, cap, m + 1);
      if id !in states[n - 1].rows { StaysAway(states, steps, cap, id, m + 1, n - 1); }
      WaitLasts(states, steps, cap, id, m, n - 1, until);
      WaitGoesOn(states[n - 1], steps[n - 1], cap, id, until);
    }
  }

  lemma StaysAway(states: seq<Queue>, steps: seq<Step>, cap: nat, id: nat, m: nat, n: nat)
    requires Run(states, steps, cap) && cap >= 1 && m <= n < |steps| && id in states[m].rows && id !in states[n].rows
    ensures id !in states[n + 1].rows
  {
    RunInv(states, steps, cap, m);
    NumbersGrow(states, steps, cap, m, n);
    GoneForever(states, steps, cap, id, n, n + 1);
  }

  /** As long as nothing else happens to it, a claimed, renewed or failed job may be claimed exactly once the clock has
      passed the end of that lease or backoff, if it has attempts left. */
  lemma ClaimableIff(states: seq<Queue>, steps: seq<Step>, cap: nat, id: nat, m: nat, n: nat, until: int)
    requires Run(states, steps, cap) && cap >= 1 && m < n <= |steps| && Holds(states, steps, cap, id, m, until)
    requires forall j :: m < j < n ==> !Concerns(steps[j], id)
    requires id in states[n].rows
    ensures Claimable(states[n], cap, id) <==> states[n].clock > until && states[n].rows[id].attempts < cap
  {
    hide Holds;
    WaitLasts(states, steps, cap, id, m, n, until);
  }

  /** The owner's own report or renewal of the job. */
  predicate Reports(step: Step, id: nat, owner: Owner) {
    (step.Fail? && step.id == id && step.owner == owner) || (step.Renew? && id in step.jobs && step.owner == owner)
  }

  ghost predicate Owned(q: Queue, id: nat, owner: Owner, until: int) {
    id in q.rows ==> q.rows[id].state == Processing && q.rows[id].owner == Some(owner) && q.rows[id].lease == Some(until)
  }

  lemma OwnedNext(q: Queue, step: Step, cap: nat, id: nat, owner: Owner, until: int)
    requires Inv(q, cap) && Enabled(q, step, cap) && id < q.nextId && Owned(q, id, owner, until) && q.clock <= until
    requires !Reports(step, id, owner)
    ensures Owned(Apply(q, step, cap), id, owner, until) && !Claims(step, id)
  {
  }

  lemma {:induction false} OwnedThrough(states: seq<Queue>, steps: seq<Step>, cap: nat, id: nat, m: nat, n: nat)
    requires Run(states, steps, cap) && cap >= 1 && m < n <= |steps| && Claims(steps[m], id)
    requires forall j :: m < j < n ==> !Reports(steps[j], id, steps[m].owner)
    requires n == m + 1 || states[n - 1].clock <= states[m].clock + steps[m].leaseSecs
    ensures Owned(states[n], id, steps[m].owner, states[m].clock + steps[m].leaseSecs) && id < states[n].nextId
  {
    RunInv(states, steps, cap, n - 1);
    AttemptsNext(states[n - 1], steps[n - 1], cap, id);
    if m + 1 < n {
      ClockRuns(states, steps, cap, n - 2, n - 1);
      OwnedThrough(states, steps, cap, id, m, n - 1);
      OwnedNext(states[n - 1], steps[n - 1], cap, id, steps[m].owner, states[m].clock + steps[m].leaseSecs);
    }
  }

  /** Mutual exclusion: until its lease is over, a claimed job is not claimed again, by anyone, unless its owner itself
      reports a failure or renews the lease. */
  lemma LeaseIsExclusive(states: seq<Queue>, steps: seq<Step>, cap: nat, id: nat, m: nat, n: nat)
    requires Run(states, steps, cap) && cap >= 1 && m < n < |steps| && Claims(steps[m], id)
    requires forall j :: m < j < n ==> !Reports(steps[j], id, steps[m].owner)
    requires states[n].clock <= states[m].clock + steps[m].leaseSecs
    ensures !Claims(steps[n], id)
    ensures id in states[n].rows ==> HeldBy(states[n], id, steps[m].owner)
  {
    hide Owned;
    ClockRuns(states, steps, cap, n - 1, n);
    OwnedThrough(states, steps, cap, id, m, n);
    OwnedIsHeld(states[n], cap, id, steps[m].owner, states[m].clock + steps[m].leaseSecs);
  }

  lemma OwnedIsHeld(q: Queue, cap: nat, id: nat, owner: Owner, until: int)
    requires Owned(q, id, owner, until) && q.clock <= until
    ensures !Claimable(q, cap, id) && (id in q.rows ==> HeldBy(q, id, owner))
  {
  }
}

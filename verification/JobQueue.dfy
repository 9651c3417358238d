/** The vectorizer's job queue: the table of jobs and every statement that changes it, first as functions of
    the queue's state and then as the methods of the table. */
module JobQueue {
  import opened Options
  import opened Powers

  datatype Op = Upsert | Delete

  datatype JobState = Pending | Processing | Failed

  /** A vectorizer and the primary key of a source row, as text. */
  datatype Key = Key(vectorizer: int, pk: string)

  type Owner = string

  /** `stamp` numbers the trigger event whose `op` the row carries; it is history, no statement reads it. */
  datatype Row = Row(key: Key, op: Op, state: JobState, attempts: nat, owner: Option<Owner>,
                     lease: Option<int>, enqueuedAt: int, stamp: nat)

  /** `clock` is `now()`, in seconds; `events` counts trigger events so far. */
  datatype Queue = Queue(rows: map<nat, Row>, nextId: nat, clock: int, events: nat)

  const EMPTY := Queue(map[], 0, 0, 0)

  datatype Step =
    | Enqueue(key: Key, op: Op)
    | Claim(owner: Owner, ids: set<nat>, batch: nat, leaseSecs: int, locked: set<nat>)
    | Done(id: nat, owner: Owner)
    | Fail(id: nat, owner: Owner)
    | Renew(jobs: set<nat>, owner: Owner, leaseSecs: int)
    | Reap
    | Purge(keep: int)
    | Tick(secs: nat)

  // ----- the statements -----

  predicate PendingFor(q: Queue, key: Key, id: nat) {
    id in q.rows && q.rows[id].state == Pending && q.rows[id].key == key
  }

  predicate HasPending(q: Queue, key: Key) {
    exists id :: id in q.rows && PendingFor(q, key, id)
  }

  function FreshRow(q: Queue, key: Key, op: Op): Row {
    Row(key, op, Pending, 0, None, None, q.clock, q.events)
  }

  /** The trigger: insert a pending row, or overwrite the op of the one already pending for the key. */
  function Enqueued(q: Queue, key: Key, op: Op): Queue {
    if HasPending(q, key) then
      q.(rows := map id | id in q.rows ::
           if PendingFor(q, key, id) then q.rows[id].(op := op, stamp := q.events) else q.rows[id],
         events := q.events + 1)
    else
      q.(rows := q.rows[q.nextId := FreshRow(q, key, op)], nextId := q.nextId + 1, events := q.events + 1)
  }

  /** Pending and past its backoff, or processing with an expired lease; always below the attempt cap. */
  predicate Claimable(q: Queue, cap: nat, id: nat) {
    id in q.rows &&
    var r := q.rows[id];
    && ((r.state == Pending && (r.lease == None || r.lease.value < q.clock))
        || (r.state == Processing && r.lease.Some? && r.lease.value < q.clock))
    && r.attempts < cap
  }

  function ClaimedRow(q: Queue, r: Row, owner: Owner, leaseSecs: int): Row {
    r.(state := Processing, owner := Some(owner), lease := Some(q.clock + leaseSecs), attempts := r.attempts + 1)
  }

  function ClaimedBy(q: Queue, owner: Owner, ids: set<nat>, leaseSecs: int): Queue {
    q.(rows := map id | id in q.rows ::
         if id in ids then ClaimedRow(q, q.rows[id], owner, leaseSecs) else q.rows[id])
  }

  /** `ORDER BY enqueued_at FOR UPDATE SKIP LOCKED LIMIT batch`: the oldest claimable rows nobody has locked. */
  predicate ClaimAllowed(q: Queue, cap: nat, ids: set<nat>, batch: nat, locked: set<nat>) {
    && (forall id :: id in ids ==> Claimable(q, cap, id) && id !in locked)
    && |ids| <= batch
    && (forall id :: id in q.rows && Claimable(q, cap, id) && id !in locked && id !in ids ==>
          |ids| == batch && forall c :: c in ids ==> q.rows[c].enqueuedAt <= q.rows[id].enqueuedAt)
  }

  lemma SelectedAreRows(q: Queue, cap: nat, ids: set<nat>, batch: nat, locked: set<nat>)
    requires ClaimAllowed(q, cap, ids, batch, locked)
    ensures ids <= q.rows.Keys
  {
  }

  predicate HeldBy(q: Queue, id: nat, owner: Owner) {
    id in q.rows && q.rows[id].state == Processing && q.rows[id].owner == Some(owner)
  }

  function Completed(q: Queue, id: nat, owner: Owner): Queue {
    if HeldBy(q, id, owner) then q.(rows := q.rows - {id}) else q
  }

  /** Two to the power of the attempts, the exponent capped at 12 and the result at 300 seconds. */
  function Backoff(attempts: nat): int {
    var p := Pow2(if attempts < 12 then attempts else 12);
    if p < 300 then p else 300
  }

  function FailedRow(q: Queue, r: Row, cap: nat): Row {
    if r.attempts >= cap then r.(state := JobState.Failed, owner := None, lease := None)
    else r.(state := Pending, owner := None, lease := Some(q.clock + Backoff(r.attempts)))
  }

  /** Going back to pending while a newer row is pending for the key violates the unique index, and the
      statement aborts without effect. */
  predicate FailAborts(q: Queue, id: nat, owner: Owner, cap: nat) {
    HeldBy(q, id, owner) && q.rows[id].attempts < cap && HasPending(q, q.rows[id].key)
  }

  function MarkedFailed(q: Queue, id: nat, owner: Owner, cap: nat): Queue {
    if HeldBy(q, id, owner) && !FailAborts(q, id, owner, cap)
    then q.(rows := q.rows[id := FailedRow(q, q.rows[id], cap)])
    else q
  }

  function Renewed(q: Queue, jobs: set<nat>, owner: Owner, leaseSecs: int): Queue {
    q.(rows := map id | id in q.rows ::
         if id in jobs && HeldBy(q, id, owner) then q.rows[id].(lease := Some(q.clock + leaseSecs))
         else q.rows[id])
  }

  predicate Reapable(q: Queue, cap: nat, id: nat) {
    id in q.rows &&
    var r := q.rows[id];
    r.state == Processing && r.attempts >= cap && r.lease.Some? && r.lease.value < q.clock
  }

  function Reaped(q: Queue, cap: nat): Queue {
    q.(rows := map id | id in q.rows ::
         if Reapable(q, cap, id) then q.rows[id].(state := JobState.Failed) else q.rows[id])
  }

  function FailedAbove(q: Queue, id: nat): set<nat> {
    set other | other in q.rows && other > id && q.rows[other].state == JobState.Failed
  }

  /** Not among the `keep` failed rows with the highest numbers. */
  predicate Purgeable(q: Queue, keep: int, id: nat) {
    id in q.rows && q.rows[id].state == JobState.Failed && |FailedAbove(q, id)| >= keep
  }

  function Purged(q: Queue, keep: int): Queue {
    q.(rows := map id | id in q.rows && !Purgeable(q, keep, id) :: q.rows[id])
  }

  function Apply(q: Queue, step: Step, cap: nat): Queue {
    match step
    case Enqueue(key, op) => Enqueued(q, key, op)
    case Claim(owner, ids, batch, leaseSecs, locked) => ClaimedBy(q, owner, ids, leaseSecs)
    case Done(id, owner) => Completed(q, id, owner)
    case Fail(id, owner) => MarkedFailed(q, id, owner, cap)
    case Renew(jobs, owner, leaseSecs) => Renewed(q, jobs, owner, leaseSecs)
    case Reap => Reaped(q, cap)
    case Purge(keep) => Purged(q, keep)
    case Tick(secs) => q.(clock := q.clock + secs)
  }

  /** Every statement may run at any time; a claim takes the rows its query selects. */
  predicate Enabled(q: Queue, step: Step, cap: nat) {
    step.Claim? ==> ClaimAllowed(q, cap, step.ids, step.batch, step.locked)
  }

  datatype FailResult = Marked | LeaseLost | Aborted

  datatype Job = Job(id: nat, key: Key, op: Op, attempts: nat)

  /** The table and its statements. Each method performs one statement of the transition system. */
  class JobTable {
    var rows: map<nat, Row>
    var nextId: nat
    var clock: int
    var events: nat

    ghost function State(): Queue
      reads this
    {
      Queue(rows, nextId, clock, events)
    }

    constructor ()
      ensures State() == EMPTY
    {
      rows, nextId, clock, events := map[], 0, 0, 0;
    }

    method Enqueue(key: Key, op: Op, cap: nat)
      requires forall a, b :: PendingFor(State(), key, a) && PendingFor(State(), key, b) ==> a == b
      modifies this
      ensures State() == Apply(old(State()), Step.Enqueue(key, op), cap)
    {
      ghost var q := State();
      if id :| id in rows && rows[id].state == Pending && rows[id].key == key {
        assert PendingFor(q, key, id);
        rows := rows[id := rows[id].(op := op, stamp := events)];
        assert rows == Enqueued(q, key, op).rows;
      } else {
        assert !HasPending(q, key);
        rows := rows[nextId := Row(key, op, Pending, 0, None, None, clock, events)];
        nextId := nextId + 1;
      }
      events := events + 1;
    }

    predicate IsClaimable(id: nat, cap: nat)
      reads this
      ensures IsClaimable(id, cap) == Claimable(State(), cap, id)
    {
      id in rows &&
      var r := rows[id];
      && (match r.state
          case Pending => r.lease == None || r.lease.value < clock
          case Processing => r.lease.Some? && r.lease.value < clock
          case Failed => false)
      && r.attempts < cap
    }

    method Oldest(candidates: set<nat>) returns (oldest: nat)
      requires candidates != {} && candidates <= rows.Keys
      ensures oldest in candidates
      ensures forall id :: id in candidates ==> rows[oldest].enqueuedAt <= rows[id].enqueuedAt
    {
      oldest :| oldest in candidates;
      var rest := candidates - {oldest};
      while rest != {}
        invariant oldest in candidates && rest <= candidates
        invariant forall id :: id in candidates && id !in rest ==> rows[oldest].enqueuedAt <= rows[id].enqueuedAt
        decreases |rest|
      {
        var id :| id in rest;
        rest := rest - {id};
        if rows[id].enqueuedAt < rows[oldest].enqueuedAt {
          oldest := id;
        }
      }
    }

    /** The rows the claim query selects: oldest first, until the batch is full or nothing is left. */
    method Select(batch: nat, cap: nat, locked: set<nat>) returns (ids: set<nat>)
      ensures ClaimAllowed(State(), cap, ids, batch, locked)
    {
      var left := set id | id in rows && IsClaimable(id, cap) && id !in locked;
      ids := {};
      while |ids| < batch && left != {}
        invariant forall id :: id in ids ==> Claimable(State(), cap, id) && id !in locked && id !in left
        invariant forall id :: id in left ==> Claimable(State(), cap, id) && id !in locked
        invariant forall id :: id in rows && Claimable(State(), cap, id) && id !in locked ==> id in ids || id in left
        invariant forall c, id :: c in ids && id in left ==> rows[c].enqueuedAt <= rows[id].enqueuedAt
        invariant |ids| <= batch
        decreases |left|
      {
        var id := Oldest(left);
        left := left - {id};
        ids := ids + {id};
      }
    }

    /** Claims up to `batch` jobs for `owner` and burns one attempt on each. */
    method ClaimBatch(owner: Owner, batch: nat, leaseSecs: int, cap: nat, locked: set<nat>)
      returns (jobs: seq<Job>, ghost ids: set<nat>)
      modifies this
      ensures Enabled(old(State()), Step.Claim(owner, ids, batch, leaseSecs, locked), cap)
      ensures State() == Apply(old(State()), Step.Claim(owner, ids, batch, leaseSecs, locked), cap)
      ensures forall j :: j in jobs <==> j.id in ids && j == Job(j.id, rows[j.id].key, rows[j.id].op, rows[j.id].attempts)
    {
      hide Claimable, ClaimAllowed;
      ghost var q := State();
      var selected := Select(batch, cap, locked);
      SelectedAreRows(q, cap, selected, batch, locked);
      ids := selected;
      jobs := [];
      var left := selected;
      while left != {}
        invariant left <= selected
        invariant nextId == q.nextId && clock == q.clock && events == q.events
        invariant rows.Keys == q.rows.Keys
        invariant forall id :: id in rows ==>
          rows[id] == if id in selected && id !in left then ClaimedRow(q, q.rows[id], owner, leaseSecs) else q.rows[id]
        invariant forall j :: j in jobs <==>
          j.id in selected && j.id !in left && j == Job(j.id, rows[j.id].key, rows[j.id].op, rows[j.id].attempts)
        decreases |left|
      {
        var id :| id in left;
        left := left - {id};
        var r := rows[id];
        r := r.(state := Processing, owner := Some(owner), lease := Some(clock + leaseSecs), attempts := r.attempts + 1);
        rows := rows[id := r];
        jobs := jobs + [Job(id, r.key, r.op, r.attempts)];
      }
      assert rows == ClaimedBy(q, owner, selected, leaseSecs).rows;
    }

    /** True exactly when the job was still held by `owner`; then it is gone. */
    method MarkDone(id: nat, owner: Owner, cap: nat) returns (done: bool)
      modifies this
      ensures done <==> HeldBy(old(State()), id, owner)
      ensures State() == Apply(old(State()), Step.Done(id, owner), cap)
    {
      done := id in rows && rows[id].state == Processing && rows[id].owner == Some(owner);
      if done {
        rows := rows - {id};
      }
    }

    method MarkFailed(id: nat, owner: Owner, cap: nat) returns (r: FailResult)
      modifies this
      ensures State() == Apply(old(State()), Step.Fail(id, owner), cap)
      ensures r.LeaseLost? <==> !HeldBy(old(State()), id, owner)
      ensures r.Aborted? <==> FailAborts(old(State()), id, owner, cap)
    {
      if !(id in rows && rows[id].state == Processing && rows[id].owner == Some(owner)) {
        return LeaseLost;
      }
      var row := rows[id];
      if row.attempts >= cap {
        rows := rows[id := row.(state := JobState.Failed, owner := None, lease := None)];
        return Marked;
      }
      if other :| other in rows && rows[other].state == Pending && rows[other].key == row.key {
        assert PendingFor(State(), row.key, other);
        return Aborted;
      }
      rows := rows[id := row.(state := Pending, owner := None, lease := Some(clock + Backoff(row.attempts)))];
      r := Marked;
    }

    /** Returns how many of the jobs were still held and have been extended. */
    method RenewLease(jobs: set<nat>, owner: Owner, leaseSecs: int, cap: nat) returns (n: nat)
      modifies this
      ensures State() == Apply(old(State()), Step.Renew(jobs, owner, leaseSecs), cap)
      ensures n == |set id | id in jobs && HeldBy(old(State()), id, owner)|
    {
      var held := set id | id in jobs && id in rows && rows[id].state == Processing && rows[id].owner == Some(owner);
      assert held == set id | id in jobs && HeldBy(State(), id, owner);
      rows := map id | id in rows :: if id in held then rows[id].(lease := Some(clock + leaseSecs)) else rows[id];
      n := |held|;
    }

    method ReapOrphans(cap: nat) returns (n: nat)
      modifies this
      ensures State() == Apply(old(State()), Step.Reap, cap)
      ensures n == |set id | id in old(rows) && Reapable(old(State()), cap, id)|
    {
      var orphans := set id | id in rows && rows[id].state == Processing && rows[id].attempts >= cap
                                && rows[id].lease.Some? && rows[id].lease.value < clock;
      assert orphans == set id | id in rows && Reapable(State(), cap, id);
      rows := map id | id in rows :: if id in orphans then rows[id].(state := JobState.Failed) else rows[id];
      n := |orphans|;
    }

    /** Keeps the `keep` failed rows with the highest numbers. */
    method PurgeDeadLetters(keep: int, cap: nat) returns (n: nat)
      modifies this
      ensures State() == Apply(old(State()), Step.Purge(keep), cap)
      ensures n == |set id | id in old(rows) && Purgeable(old(State()), keep, id)|
    {
      var dead := set id | id in rows && rows[id].state == JobState.Failed;
      ghost var q := State();
      forall id | id in dead ensures (set other | other in dead && other > id) == FailedAbove(q, id) {
      }
      var doomed := set id | id in dead && |set other | other in dead && other > id| >= keep;
      assert doomed == set id | id in rows && Purgeable(q, keep, id);
      rows := map id | id in rows && id !in doomed :: rows[id];
      n := |doomed|;
    }
  }
}

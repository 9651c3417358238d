/** The per-backend circuit breaker around outbound HTTP calls, and the bounded retry loop it gates. */
module Breaker {

  const BREAKER_K := 5
  const MAX_RETRIES := 2

  datatype State = Closed | Open(until: int) | HalfOpen

  datatype Entry = Entry(state: State, fails: nat)

  const FIRST := Entry(Closed, 0)

  // ----- one request -----

  /** What one send came back with. */
  datatype Outcome = Status(code: int) | ConnectionError

  /** Connection trouble, too many requests, and a bad or unavailable gateway. */
  predicate Retryable(o: Outcome) { o.ConnectionError? || o.code == 429 || o.code == 502 || o.code == 503 }

  /** The endpoint is failing, as opposed to rejecting the request. */
  predicate EndpointFailing(o: Outcome) { o.ConnectionError? || o.code >= 500 || o.code == 429 }

  /** One call of post_json: when it is gated and when its outcome is recorded, the breaker setting then in force, and
      what each send would come back with. */
  datatype Call = Call(start: int, end: int, openMs: nat, answers: seq<Outcome>) {
    ghost predicate Valid() { start <= end && |answers| == MAX_RETRIES + 1 }

    /** How many sends the call makes once admitted: up to the first outcome that is not retried, or the cap. */
    function Sends(): (n: nat)
      requires Valid()
      ensures 1 <= n <= MAX_RETRIES + 1
      ensures forall i :: 0 <= i < n - 1 ==> Retryable(answers[i])
      ensures n == MAX_RETRIES + 1 || !Retryable(answers[n - 1])
    {
      if !Retryable(answers[0]) then 1 else if !Retryable(answers[1]) then 2 else 3
    }

    predicate Fails()
      requires Valid()
    {
      EndpointFailing(answers[Sends() - 1])
    }
  }

  // ----- the state machine of one endpoint -----

  function Allow(e: Entry, now: int): (Entry, bool) {
    match e.state
    case Open(until) => if now >= until then (e.(state := HalfOpen), true) else (e, false)
    case _ => (e, true)
  }

  function Record(e: Entry, success: bool, now: int, openMs: nat): Entry {
    if success then FIRST
    else if e.state.HalfOpen? || e.fails + 1 >= BREAKER_K then Entry(Open(now + openMs), e.fails + 1)
    else Entry(Closed, e.fails + 1)
  }

  predicate Admits(e: Entry, c: Call) { Allow(e, c.start).1 }

  function After(e: Entry, c: Call): Entry
    requires c.Valid()
  {
    var (gated, ok) := Allow(e, c.start);
    if ok then Record(gated, !c.Fails(), c.end, c.openMs) else e
  }

  /** The entry of an endpoint before call n of a sequence of calls to it. */
  function Before(e: Entry, cs: seq<Call>, n: nat): Entry
    requires n <= |cs| && AllValid(cs)
  {
    if n == 0 then e else After(Before(e, cs, n - 1), cs[n - 1])
  }

  ghost predicate AllValid(cs: seq<Call>) {
    forall i :: 0 <= i < |cs| ==> cs[i].Valid()
  }

  ghost predicate Admitted(e: Entry, cs: seq<Call>, i: nat)
    requires i < |cs| && AllValid(cs)
  {
    Admits(Before(e, cs, i), cs[i])
  }

  // ----- the entry is determined by the trailing failures -----

  /** The admitted calls among the first n, in order. */
  ghost function Probed(e: Entry, cs: seq<Call>, n: nat): (ps: seq<nat>)
    requires n <= |cs| && AllValid(cs)
    ensures forall k :: 0 <= k < |ps| ==> ps[k] < n && Admitted(e, cs, ps[k])
    ensures forall j, k :: 0 <= j < k < |ps| ==> ps[j] < ps[k]
    ensures forall i :: 0 <= i < n && Admitted(e, cs, i) ==> i in ps
  {
    if n == 0 then []
    else if Admitted(e, cs, n - 1) then Probed(e, cs, n - 1) + [n - 1] else Probed(e, cs, n - 1)
  }

  /** The last f admitted calls failed, and the one before them, if any, did not. */
  ghost predicate TrailingFailures(cs: seq<Call>, ps: seq<nat>, f: nat)
    requires AllValid(cs) && forall k :: 0 <= k < |ps| ==> ps[k] < |cs|
  {
    && f <= |ps|
    && (forall k :: |ps| - f <= k < |ps| ==> cs[ps[k]].Fails())
    && (f < |ps| ==> !cs[ps[|ps| - f - 1]].Fails())
  }

  /** What an endpoint's admitted calls say about its entry. */
  ghost predicate Reflects(cs: seq<Call>, ps: seq<nat>, e: Entry)
    requires AllValid(cs) && forall k :: 0 <= k < |ps| ==> ps[k] < |cs|
  {
    && TrailingFailures(cs, ps, e.fails)
    && (e.fails < BREAKER_K ==> e.state == Closed)
    && (e.fails >= BREAKER_K ==> var last := cs[ps[|ps| - 1]]; e.state == Open(last.end + last.openMs))
  }

  lemma ReflectsStep(cs: seq<Call>, ps: seq<nat>, e: Entry, n: nat)
    requires AllValid(cs) && n < |cs| && forall k :: 0 <= k < |ps| ==> ps[k] < |cs|
    requires Reflects(cs, ps, e) && Admits(e, cs[n])
    ensures Reflects(cs, ps + [n], After(e, cs[n]))
  {
    var next := ps + [n];
    assert forall k :: 0 <= k < |ps| ==> next[k] == ps[k];
    assert cs[next[|ps|]] == cs[n];
  }

  /** Between calls the breaker is never half-open, so one admitted call is the only probe until its outcome is
      recorded. It is closed below K trailing failures and open from K on, until openMs past the last failure. */
  lemma {:induction false} EntryIsHistory(cs: seq<Call>, n: nat)
    requires n <= |cs| && AllValid(cs)
    ensures Reflects(cs, Probed(FIRST, cs, n), Before(FIRST, cs, n))
  {
    if n > 0 {
      hide Reflects, Admits, After;
      EntryIsHistory(cs, n - 1);
      if Admitted(FIRST, cs, n - 1) {
        ReflectsStep(cs, Probed(FIRST, cs, n - 1), Before(FIRST, cs, n - 1), n - 1);
      } else {
        RefusedIsNoOp(Before(FIRST, cs, n - 1), cs[n - 1]);
      }
    } else {
      hide Reflects, Admits, After;
      NothingReflected(cs);
      assert Probed(FIRST, cs, 0) == [] && Before(FIRST, cs, 0) == FIRST;
    }
  }

  lemma NothingReflected(cs: seq<Call>)
    requires AllValid(cs)
    ensures Reflects(cs, [], FIRST)
  {
  }

  lemma RefusedIsNoOp(e: Entry, c: Call)
    requires c.Valid() && !Admits(e, c)
    ensures After(e, c) == e
  {
  }

  // ----- a failing endpoint is left alone -----

  /** An entry as it stands between calls. */
  ghost predicate Settled(e: Entry) {
    !e.state.HalfOpen? && (e.state.Closed? ==> e.fails < BREAKER_K)
  }

  ghost predicate AllFail(cs: seq<Call>, openMs: nat)
    requires AllValid(cs)
  {
    forall i :: 0 <= i < |cs| ==> cs[i].Fails() && cs[i].openMs >= openMs
  }

  /** A backend makes one call after another on a monotone clock. */
  ghost predicate InOrder(cs: seq<Call>) {
    forall i, j :: 0 <= i && j == i + 1 < |cs| ==> cs[i].end <= cs[j].start
  }

  ghost predicate InWindow(c: Call, t: int, length: nat) { t <= c.start <= t + length }

  /** How many of the first n calls are admitted within the window. */
  ghost function AdmittedIn(e: Entry, cs: seq<Call>, n: nat, t: int, length: nat): nat
    requires n <= |cs| && AllValid(cs)
  {
    if n == 0 then 0
    else AdmittedIn(e, cs, n - 1, t, length) + (if Admitted(e, cs, n - 1) && InWindow(cs[n - 1], t, length) then 1 else 0)
  }

  ghost function SendsIn(e: Entry, cs: seq<Call>, n: nat, t: int, length: nat): nat
    requires n <= |cs| && AllValid(cs)
  {
    if n == 0 then 0
    else SendsIn(e, cs, n - 1, t, length)
         + (if Admitted(e, cs, n - 1) && InWindow(cs[n - 1], t, length) then cs[n - 1].Sends() else 0)
  }

  /** While open, the admissions so far past the first K have each pushed the deadline openMs further. */
  ghost predicate Budget(e: Entry, now: int, admitted: nat, openMs: nat, t: int, length: nat) {
    && Settled(e)
    && (admitted > 0 ==> t <= now)
    && (e.state.Closed? ==> admitted <= e.fails)
    && (e.state.Open? && admitted > 0 ==> Product(admitted - BREAKER_K, openMs) <= e.state.until - openMs - t)
    && Product(admitted - BREAKER_K, openMs) <= length
  }

  ghost function Product(a: int, b: int): int { a * b }

  lemma ProductStep(a: int, b: nat)
    ensures Product(a + 1, b) == Product(a, b) + b
    ensures a <= 0 ==> Product(a, b) <= 0
  {
    if a <= 0 { assert a * b <= 0 * b; }
  }

  lemma BudgetStep(e: Entry, now: int, c: Call, admitted: nat, openMs: nat, t: int, length: nat)
    requires c.Valid() && c.Fails() && c.openMs >= openMs && now <= c.start
    requires Budget(e, now, admitted, openMs, t, length)
    ensures var more := if Admits(e, c) && InWindow(c, t, length) then 1 else 0;
            Budget(After(e, c), c.end, admitted + more, openMs, t, length)
  {
    hide Product;
    ProductStep(admitted - BREAKER_K, openMs);
    ProductStep(admitted + 1 - BREAKER_K, openMs);
  }

  lemma {:induction false} BudgetKept(e: Entry, cs: seq<Call>, n: nat, openMs: nat, t: int, length: nat)
    requires n <= |cs| && AllValid(cs) && AllFail(cs, openMs) && InOrder(cs) && Settled(e)
    ensures AdmittedIn(e, cs, 0, t, length) == 0
    ensures n > 0 ==> Budget(Before(e, cs, n), cs[n - 1].end, AdmittedIn(e, cs, n, t, length), openMs, t, length)
  {
    hide Admits, After, InWindow, Product;
    if n > 0 {
      BudgetKept(e, cs, n - 1, openMs, t, length);
      if n == 1 {
        ProductStep(0 - BREAKER_K, openMs);
        BudgetStep(e, cs[0].start, cs[0], 0, openMs, t, length);
      } else {
        assert cs[n - 2].end <= cs[n - 1].start;
        BudgetStep(Before(e, cs, n - 1), cs[n - 2].end, cs[n - 1], AdmittedIn(e, cs, n - 1, t, length), openMs, t, length);
      }
    }
  }

  /** Against an endpoint that only fails, any window of a given length admits at most K + ⌊length / openMs⌋ calls,
      whatever the breaker's state was before. */
  lemma WindowBound(e: Entry, cs: seq<Call>, openMs: nat, t: int, length: nat)
    requires AllValid(cs) && AllFail(cs, openMs) && InOrder(cs) && Settled(e) && openMs > 0
    ensures AdmittedIn(e, cs, |cs|, t, length) <= BREAKER_K + length / openMs
  {
    BudgetKept(e, cs, |cs|, openMs, t, length);
    if |cs| == 0 { return; }
    var past := AdmittedIn(e, cs, |cs|, t, length) - BREAKER_K;
    if past > length / openMs {
      QuotientBelow(past, length, openMs);
    }
  }

  lemma QuotientBelow(a: int, x: nat, b: nat)
    requires b > 0 && a > x / b
    ensures Product(a, b) > x
  {
    hide Product;
    NextMultiple(x, b);
    ProductGrows(x / b + 1, a, b);
  }

  lemma NextMultiple(x: nat, b: nat)
    requires b > 0
    ensures Product(x / b + 1, b) > x
  {
    assert x == x / b * b + x % b;
  }

  lemma ProductGrows(i: int, j: int, b: nat)
    requires i <= j
    ensures Product(i, b) <= Product(j, b)
  {
  }

  /** Each admitted call sends at most three requests. */
  lemma {:induction false} SendsBound(e: Entry, cs: seq<Call>, n: nat, t: int, length: nat)
    requires n <= |cs| && AllValid(cs)
    ensures SendsIn(e, cs, n, t, length) <= (MAX_RETRIES + 1) * AdmittedIn(e, cs, n, t, length)
  {
    if n > 0 { SendsBound(e, cs, n - 1, t, length); }
  }

  /** A dead endpoint called K times at once and then at every deadline. */
  ghost function DeadRun(m: nat, openMs: nat): (cs: seq<Call>)
    ensures |cs| == BREAKER_K + m
    ensures forall i :: 0 <= i < |cs| ==> cs[i] == DeadCall(i, openMs)
  {
    seq(BREAKER_K + m, i requires 0 <= i => DeadCall(i, openMs))
  }

  ghost function DeadCall(i: nat, openMs: nat): (c: Call)
    ensures c.Valid() && c.Fails()
  {
    var at := if i < BREAKER_K then 0 else Product(i + 1 - BREAKER_K, openMs);
    Call(at, at, openMs, [ConnectionError, ConnectionError, ConnectionError])
  }

  lemma DeadCallStep(i: nat, m: nat, openMs: nat)
    requires i < BREAKER_K + m
    ensures var e := Entry(if i < BREAKER_K then Closed else Open(Product(i + 1 - BREAKER_K, openMs)), i);
            var c := DeadCall(i, openMs);
            && Admits(e, c) && InWindow(c, 0, Product(m, openMs))
            && After(e, c) == Entry(if i + 1 < BREAKER_K then Closed else Open(Product(i + 2 - BREAKER_K, openMs)), i + 1)
  {
    hide Product;
    ProductStep(i + 1 - BREAKER_K, openMs);
    if i >= BREAKER_K {
      ProductMonotone(i + 1 - BREAKER_K, m, openMs);
    } else {
      ProductMonotone(0, m, openMs);
      ProductStep(0, openMs);
      ProductMonotone(0, 0, 0);
      ProductZero(openMs);
    }
  }

  lemma ProductZero(b: nat)
    ensures Product(0, b) == 0
  {
  }

  lemma {:induction false} DeadRunAdmits(m: nat, openMs: nat, n: nat)
    requires n <= BREAKER_K + m
    ensures AllValid(DeadRun(m, openMs))
    ensures AdmittedIn(FIRST, DeadRun(m, openMs), n, 0, Product(m, openMs)) == n
    ensures Before(FIRST, DeadRun(m, openMs), n)
         == Entry(if n < BREAKER_K then Closed else Open(Product(n + 1 - BREAKER_K, openMs)), n)
  {
    hide Product, Admits, After, InWindow, DeadCall;
    var cs := DeadRun(m, openMs);
    if n > 0 {
      DeadRunAdmits(m, openMs, n - 1);
      DeadCallStep(n - 1, m, openMs);
      assert cs[n - 1] == DeadCall(n - 1, openMs);
    }
  }

  lemma ProductMonotone(a: nat, b: nat, c: nat)
    requires a <= b
    ensures 0 <= Product(a, c) <= Product(b, c)
  {
    assert b * c == a * c + (b - a) * c;
  }

  /** The bound is attained for every m, so no smaller one holds. */
  lemma WindowBoundIsTight(m: nat, openMs: nat)
    requires openMs > 0
    ensures var cs := DeadRun(m, openMs);
            && AllValid(cs) && AllFail(cs, openMs) && InOrder(cs)
            && AdmittedIn(FIRST, cs, |cs|, 0, m * openMs) == BREAKER_K + m
  {
    DeadRunFails(m, openMs);
    DeadRunAdmits(m, openMs, BREAKER_K + m);
  }

  lemma DeadRunFails(m: nat, openMs: nat)
    ensures var cs := DeadRun(m, openMs); AllValid(cs) && AllFail(cs, openMs) && InOrder(cs)
  {
    hide Product;
    var cs := DeadRun(m, openMs);
    forall i, j | 0 <= i && j == i + 1 < |cs| ensures cs[i].end <= cs[j].start {
      if i >= BREAKER_K {
        ProductMonotone(i + 1 - BREAKER_K, j + 1 - BREAKER_K, openMs);
      } else if j >= BREAKER_K {
        ProductMonotone(0, j + 1 - BREAKER_K, openMs);
      }
    }
  }

  // ----- the backend's table of breakers, and the call itself -----

  class Breakers {
    var entries: map<string, Entry>

    function Of(endpoint: string): Entry
      reads this
    {
      if endpoint in entries then entries[endpoint] else FIRST
    }

    constructor ()
      ensures entries == map[]
    {
      entries := map[];
    }

    method BreakerAllow(endpoint: string, now: int) returns (ok: bool)
      modifies this
      ensures var (e, admitted) := Allow(old(Of(endpoint)), now);
              ok == admitted && entries == old(entries)[endpoint := e]
    {
      if endpoint !in entries {
        entries := entries[endpoint := FIRST];
      }
      match entries[endpoint].state
      case Closed => ok := true;
      case HalfOpen => ok := true;
      case Open(until) =>
        ok := now >= until;
        if ok {
          entries := entries[endpoint := entries[endpoint].(state := HalfOpen)];
        }
    }

    method BreakerRecord(endpoint: string, success: bool, now: int, openMs: nat)
      modifies this
      ensures entries == old(entries)[endpoint := Record(old(Of(endpoint)), success, now, openMs)]
    {
      var entry := if endpoint in entries then entries[endpoint] else FIRST;
      if success {
        entries := entries[endpoint := Entry(Closed, 0)];
      } else {
        var fails := entry.fails + 1;
        var open := entry.state.HalfOpen? || fails >= BREAKER_K;
        entries := entries[endpoint := if open then Entry(Open(now + openMs), fails) else Entry(Closed, fails)];
      }
    }

    /** An admitted call sends as often as its outcomes say and records exactly one outcome; a refused one sends
        nothing. Other endpoints' breakers are untouched. */
    method PostJson(endpoint: string, c: Call) returns (sends: nat, ok: bool)
      requires c.Valid()
      modifies this
      ensures sends == if Admits(old(Of(endpoint)), c) then c.Sends() else 0
      ensures ok <==> sends > 0 && c.answers[sends - 1].Status? && 200 <= c.answers[sends - 1].code < 300
      ensures entries == old(entries)[endpoint := After(old(Of(endpoint)), c)]
    {
      sends, ok := 0, false;
      var admitted := BreakerAllow(endpoint, c.start);
      if !admitted {
        return;
      }
      var attempt := 0;
      while true
        invariant 0 <= attempt <= MAX_RETRIES && sends == attempt && !ok
        invariant forall i :: 0 <= i < attempt ==> Retryable(c.answers[i])
        invariant entries == old(entries)[endpoint := Allow(old(Of(endpoint)), c.start).0]
        decreases MAX_RETRIES - attempt
      {
        var answer := c.answers[attempt];
        sends := sends + 1;
        match answer
        case Status(code) =>
          if 200 <= code < 300 {
            BreakerRecord(endpoint, true, c.end, c.openMs);
            ok := true;
            return;
          } else if (code == 429 || code == 502 || code == 503) && attempt < MAX_RETRIES {
            attempt := attempt + 1;
          } else {
            BreakerRecord(endpoint, !(code >= 500 || code == 429), c.end, c.openMs);
            return;
          }
        case ConnectionError =>
          if attempt < MAX_RETRIES {
            attempt := attempt + 1;
          } else {
            BreakerRecord(endpoint, false, c.end, c.openMs);
            return;
          }
      }
    }
  }

  // ----- which outcomes count -----

  /** A request is sent again exactly after a connection error or the statuses 429, 502 and 503, and at most three times
      in all. */
  lemma SendsStopAt(c: Call, i: nat)
    requires c.Valid() && i < 3
    ensures i + 1 < c.Sends() ==> c.answers[i] in {ConnectionError, Status(429), Status(502), Status(503)}
    ensures i + 1 == c.Sends() < 3 ==> c.answers[i] !in {ConnectionError, Status(429), Status(502), Status(503)}
    ensures c.Sends() <= 3
  {
  }

  /** A call that ends with a client error, or any status below 500 but 429, closes the breaker of its endpoint: bad
      requests never trip it. */
  lemma RejectionsNeverTrip(e: Entry, c: Call)
    requires c.Valid() && Admits(e, c) && c.answers[c.Sends() - 1].Status?
    requires c.answers[c.Sends() - 1].code < 500 && c.answers[c.Sends() - 1].code != 429
    ensures After(e, c) == Entry(Closed, 0)
  {
  }

  /** A call that ends with a connection error, a server error or 429 counts as a failure, and from the fifth in a row on,
      or when it was the probe, the endpoint is left alone for the whole open period. */
  lemma FailuresTrip(e: Entry, c: Call)
    requires c.Valid() && Admits(e, c) && Settled(e)
    requires c.answers[c.Sends() - 1] == ConnectionError || c.answers[c.Sends() - 1].code >= 500
          || c.answers[c.Sends() - 1].code == 429
    ensures After(e, c).fails == e.fails + 1
    ensures After(e, c).state == if e.state.Open? || e.fails >= 4 then Open(c.end + c.openMs) else Closed
  {
  }
}

/** The circuit breaker in front of the AI service, with calls that overlap in time. Every stretch
    between two awaits of a call is one atomic step. */
module CircuitBreaker {
  import opened Wrappers

  const FAILURE_THRESHOLD: nat := 5
  const COOLDOWN_MS: nat := 60000

  datatype State = CLOSED | OPEN | HALF_OPEN

  datatype Breaker = Breaker(state: State, failures: nat, lastFailure: nat, probe: bool)

  const FRESH: Breaker := Breaker(CLOSED, 0, 0, false)

  // ----- The breaker's own operations -----

  predicate CooledDown(b: Breaker, now: nat) {
    now - b.lastFailure > COOLDOWN_MS
  }

  predicate Admits(b: Breaker, now: nat) {
    match b.state
    case CLOSED => true
    case OPEN => CooledDown(b, now)
    case HALF_OPEN => !b.probe
  }

  /** The breaker after admitting a call; the first call after the cooldown becomes the probe. */
  function Admit(b: Breaker, now: nat): Breaker
    requires Admits(b, now)
  {
    if b.state.CLOSED? then b else b.(state := HALF_OPEN, probe := true)
  }

  function AfterSuccess(b: Breaker): Breaker {
    b.(state := CLOSED, failures := 0, probe := false)
  }

  function AfterFailure(b: Breaker, now: nat): Breaker {
    b.(state := if b.state.HALF_OPEN? || b.failures + 1 >= FAILURE_THRESHOLD then OPEN else b.state,
       failures := b.failures + 1,
       lastFailure := now)
  }

  function Tripped(b: Breaker, now: nat): Breaker {
    b.(state := OPEN, failures := FAILURE_THRESHOLD, lastFailure := now)
  }

  /** How one attempt of a call ended. */
  datatype Outcome = Done | Transient | Permanent

  predicate LastAttempt(attempt: nat, maxRetries: int, outcome: Outcome) {
    outcome.Permanent? || (outcome.Transient? && attempt > maxRetries)
  }

  /** The service object. */
  class AIResilience {
    var circuitState: State
    var failureCount: nat
    var lastFailureTime: nat
    var halfOpenProbeInFlight: bool

    function Value(): Breaker
      reads this
    {
      Breaker(circuitState, failureCount, lastFailureTime, halfOpenProbeInFlight)
    }

    constructor ()
      ensures Value() == FRESH
    {
      circuitState, failureCount, lastFailureTime, halfOpenProbeInFlight := CLOSED, 0, 0, false;
    }

    method CheckCircuitBreaker(now: nat) returns (admitted: bool)
      modifies this
      ensures admitted == Admits(old(Value()), now)
      ensures !admitted ==> Value() == old(Value())
      ensures admitted && !old(Value()).state.OPEN? ==> Value() == old(Value())
      ensures admitted && old(Value()).state.OPEN? ==> Value() == old(Value()).(state := HALF_OPEN, probe := false)
    {
      if circuitState == OPEN {
        if now - lastFailureTime > COOLDOWN_MS {
          circuitState := HALF_OPEN;
          halfOpenProbeInFlight := false;
        } else {
          return false;
        }
      }
      return !(circuitState == HALF_OPEN && halfOpenProbeInFlight);
    }

    /** What `execute` does before its first await. */
    method Begin(now: nat) returns (admitted: bool)
      modifies this
      ensures admitted == Admits(old(Value()), now)
      ensures Value() == if admitted then Admit(old(Value()), now) else old(Value())
      ensures old(circuitState) == CLOSED ==> admitted && Value() == old(Value())
      ensures old(circuitState) == OPEN ==>
                (admitted <==> now > old(lastFailureTime) + 60000)
                && (admitted ==> circuitState == HALF_OPEN && halfOpenProbeInFlight)
      ensures old(circuitState) == HALF_OPEN ==> (admitted <==> !old(halfOpenProbeInFlight))
    {
      admitted := CheckCircuitBreaker(now);
      if admitted && circuitState == HALF_OPEN {
        halfOpenProbeInFlight := true;
      }
    }

    method RecordSuccess()
      modifies this
      ensures Value() == AfterSuccess(old(Value()))
      ensures circuitState == CLOSED && failureCount == 0 && !halfOpenProbeInFlight
    {
      failureCount := 0;
      circuitState := CLOSED;
      halfOpenProbeInFlight := false;
    }

    method RecordFailure(now: nat)
      modifies this
      ensures Value() == AfterFailure(old(Value()), now)
      ensures failureCount == old(failureCount) + 1 && lastFailureTime == now
      ensures circuitState == if old(circuitState) == HALF_OPEN || failureCount >= 5 then OPEN else old(circuitState)
    {
      failureCount := failureCount + 1;
      lastFailureTime := now;
      if circuitState == HALF_OPEN || failureCount >= FAILURE_THRESHOLD {
        circuitState := OPEN;
      }
    }

    method ForceTripCircuit(now: nat)
      modifies this
      ensures Value() == Tripped(old(Value()), now)
    {
      circuitState := OPEN;
      failureCount := FAILURE_THRESHOLD;
      lastFailureTime := now;
    }

    method ResetCircuit()
      modifies this
      ensures Value() == FRESH
    {
      circuitState, failureCount, lastFailureTime, halfOpenProbeInFlight := CLOSED, 0, 0, false;
    }

    /** A whole call that no other call overlaps. `outcome(k)` and `clock(k)` belong to its `k`-th
        attempt. It ends with the first attempt that succeeds or is the last one. */
    method Execute(maxRetries: int, now: nat, outcome: nat -> Outcome, clock: nat -> nat)
      returns (admitted: bool, attempts: nat)
      modifies this
      ensures admitted == Admits(old(Value()), now)
      ensures !admitted ==> attempts == 0 && Value() == old(Value())
      ensures admitted ==> EndsAt(attempts, maxRetries, outcome)
      ensures admitted ==> Value() == Reported(Admit(old(Value()), now), attempts, outcome, clock)
    {
      attempts := 0;
      admitted := Begin(now);
      if !admitted {
        return;
      }
      while attempts <= maxRetries
        invariant attempts > 0 ==> attempts <= maxRetries
        invariant forall k: nat :: 1 <= k <= attempts ==> outcome(k).Transient?
        invariant Value() == Admit(old(Value()), now)
        decreases maxRetries + 1 - attempts
      {
        attempts := attempts + 1;
        if outcome(attempts).Done? {
          RecordSuccess();
          return;
        }
        if LastAttempt(attempts, maxRetries, outcome(attempts)) {
          RecordFailure(clock(attempts));
          return;
        }
      }
    }
  }

  /** The attempt a call ends with: none for a negative limit, else the first that is not a transient
      failure, or number `maxRetries + 1`. */
  ghost predicate EndsAt(attempts: nat, maxRetries: int, outcome: nat -> Outcome) {
    if maxRetries < 0 then attempts == 0
    else
      && 1 <= attempts <= maxRetries + 1
      && (forall k: nat :: 1 <= k < attempts ==> outcome(k).Transient?)
      && (attempts == maxRetries + 1 || !outcome(attempts).Transient?)
  }

  function Reported(b: Breaker, attempts: nat, outcome: nat -> Outcome, clock: nat -> nat): Breaker {
    if attempts == 0 then b
    else if outcome(attempts).Done? then AfterSuccess(b)
    else AfterFailure(b, clock(attempts))
  }

  // ----- Overlapping calls -----

  /** An admitted call waiting for its current attempt; a probe remembers its half-open episode. */
  datatype Call = Call(attempt: nat, maxRetries: int, episode: Option<nat>)

  /** `episode` counts how often the breaker has become half open. */
  datatype World = World(breaker: Breaker, calls: map<nat, Call>, clock: nat, episode: nat)

  const INITIAL: World := World(FRESH, map[], 0, 0)

  datatype Action =
    | Enter(id: nat, maxRetries: int, now: nat)
    | Settle(id: nat, outcome: Outcome, now: nat)
    | ForceTrip(now: nat)
    | Reset(now: nat)

  predicate Enabled(w: World, a: Action) {
    && a.now >= w.clock
    && (a.Enter? ==> a.id !in w.calls)
    && (a.Settle? ==> a.id in w.calls)
  }

  predicate Admitted(w: World, a: Action) {
    a.Enter? && Admits(w.breaker, a.now)
  }

  /** A call with a negative retry limit is admitted but makes no attempt: it throws without
      telling the breaker. */
  function Apply(w: World, a: Action): World
    requires Enabled(w, a)
  {
    match a
    case Enter(id, maxRetries, now) =>
      if !Admits(w.breaker, now) then w.(clock := now)
      else
        var b := Admit(w.breaker, now);
        var episode := if w.breaker.state.OPEN? then w.episode + 1 else w.episode;
        var call := Call(1, maxRetries, if b.state.HALF_OPEN? then Some(episode) else None);
        World(b, if maxRetries < 0 then w.calls else w.calls[id := call], now, episode)
    case Settle(id, outcome, now) =>
      var call := w.calls[id];
      if outcome.Done? then
        w.(breaker := AfterSuccess(w.breaker), calls := w.calls - {id}, clock := now)
      else if LastAttempt(call.attempt, call.maxRetries, outcome) then
        w.(breaker := AfterFailure(w.breaker, now), calls := w.calls - {id}, clock := now)
      else
        w.(calls := w.calls[id := call.(attempt := call.attempt + 1)], clock := now)
    case ForceTrip(now) => w.(breaker := Tripped(w.breaker, now), clock := now)
    case Reset(now) => w.(breaker := FRESH, clock := now)
  }

  predicate CanRun(w: World, acts: seq<Action>)
    decreases |acts|
  {
    acts == [] || (Enabled(w, acts[0]) && CanRun(Apply(w, acts[0]), acts[1..]))
  }

  function End(w: World, acts: seq<Action>): World
    requires CanRun(w, acts)
    decreases |acts|
  {
    if acts == [] then w else End(Apply(w, acts[0]), acts[1..])
  }

  lemma OneStep(w: World, a: Action)
    requires Enabled(w, a)
    ensures CanRun(w, [a]) && End(w, [a]) == Apply(w, a)
  {
    assert [a][1..] == [];
  }

  lemma {:induction false} RunSnoc(w: World, acts: seq<Action>, a: Action)
    requires CanRun(w, acts) && Enabled(End(w, acts), a)
    ensures CanRun(w, acts + [a]) && End(w, acts + [a]) == Apply(End(w, acts), a)
    decreases |acts|
  {
    if acts == [] {
      assert [] + [a] == [a];
      OneStep(w, a);
    } else {
      assert (acts + [a])[0] == acts[0] && (acts + [a])[1..] == acts[1..] + [a];
      RunSnoc(Apply(w, acts[0]), acts[1..], a);
    }
  }

  /** The steps of the first `k` attempts of a call. */
  function Attempts(id: nat, outcome: nat -> Outcome, clock: nat -> nat, k: nat): seq<Action> {
    seq(k, i requires 0 <= i < k => Settle(id, outcome(i + 1), clock(i + 1)))
  }

  ghost predicate ClockRuns(now: nat, clock: nat -> nat) {
    clock(0) == now && forall k: nat :: clock(k) <= clock(k + 1)
  }

  /** Called alone, `Execute` is a run of this step system. */
  lemma ExecuteIsARun(w: World, id: nat, maxRetries: int, outcome: nat -> Outcome, clock: nat -> nat, attempts: nat)
    requires ClockRuns(w.clock, clock) && Admits(w.breaker, w.clock) && w.calls == map[]
    requires EndsAt(attempts, maxRetries, outcome)
    ensures var steps := [Enter(id, maxRetries, w.clock)] + Attempts(id, outcome, clock, attempts);
            && CanRun(w, steps) && End(w, steps).calls == map[]
            && End(w, steps).breaker == Reported(Admit(w.breaker, w.clock), attempts, outcome, clock)
  {
    var first := Enter(id, maxRetries, w.clock);
    var steps := [first] + Attempts(id, outcome, clock, attempts);
    assert steps[0] == first && steps[1..] == Attempts(id, outcome, clock, attempts);
    var v := Apply(w, first);
    if attempts == 0 {
      assert steps[1..] == [];
    } else {
      hide End, AfterSuccess, AfterFailure;
      RetriesRun(v, id, maxRetries, outcome, clock, attempts - 1);
      LastAttemptRun(v, id, outcome, clock, attempts);
    }
  }

  lemma LastAttemptRun(v: World, id: nat, outcome: nat -> Outcome, clock: nat -> nat, attempts: nat)
    requires ClockRuns(v.clock, clock) && attempts >= 1
    requires CanRun(v, Attempts(id, outcome, clock, attempts - 1))
    requires var u := End(v, Attempts(id, outcome, clock, attempts - 1));
             && u.clock == clock(attempts - 1) && u.calls.Keys == {id} && u.calls[id].attempt == attempts
             && (!outcome(attempts).Transient? || u.calls[id].maxRetries < attempts)
    ensures CanRun(v, Attempts(id, outcome, clock, attempts))
    ensures var u := End(v, Attempts(id, outcome, clock, attempts - 1));
            var last := End(v, Attempts(id, outcome, clock, attempts));
            last.calls == map[] && last.breaker == Reported(u.breaker, attempts, outcome, clock)
  {
    var before := Attempts(id, outcome, clock, attempts - 1);
    var done := Settle(id, outcome(attempts), clock(attempts));
    assert clock(attempts - 1) <= clock(attempts - 1 + 1);
    RunSnoc(v, before, done);
    assert before + [done] == Attempts(id, outcome, clock, attempts);
  }

  lemma {:induction false} RetriesRun(v: World, id: nat, maxRetries: int, outcome: nat -> Outcome,
                                      clock: nat -> nat, k: nat)
    requires ClockRuns(v.clock, clock) && k <= maxRetries
    requires forall j: nat :: 1 <= j <= k ==> outcome(j).Transient?
    requires id in v.calls && v.calls[id].attempt == 1 && v.calls[id].maxRetries == maxRetries
    requires v.calls.Keys == {id}
    ensures CanRun(v, Attempts(id, outcome, clock, k))
    ensures var u := End(v, Attempts(id, outcome, clock, k));
            && u.breaker == v.breaker && u.clock == clock(k) && u.calls.Keys == {id}
            && u.calls[id].attempt == k + 1 && u.calls[id].maxRetries == maxRetries
  {
    if k > 0 {
      RetriesRun(v, id, maxRetries, outcome, clock, k - 1);
      var before, next := Attempts(id, outcome, clock, k - 1), Settle(id, outcome(k), clock(k));
      assert clock(k - 1) <= clock(k - 1 + 1);
      RunSnoc(v, before, next);
      assert before + [next] == Attempts(id, outcome, clock, k);
    }
  }

  // ----- What every step keeps -----

  ghost function Probes(w: World): set<nat> {
    set id | id in w.calls && w.calls[id].episode == Some(w.episode)
  }

  ghost predicate AttemptsBounded(w: World) {
    forall id | id in w.calls :: 1 <= w.calls[id].attempt <= w.calls[id].maxRetries + 1
  }

  ghost predicate EpisodesPast(w: World) {
    forall id | id in w.calls && w.calls[id].episode.Some? :: w.calls[id].episode.value <= w.episode
  }

  predicate ThresholdHolds(b: Breaker) {
    b.state.CLOSED? <==> b.failures < FAILURE_THRESHOLD
  }

  ghost predicate Inv(w: World) {
    && ThresholdHolds(w.breaker)
    && w.breaker.lastFailure <= w.clock
    && AttemptsBounded(w)
    && EpisodesPast(w)
  }

  /** While half open, one call admitted in this episode is in flight and no further one is let in. */
  ghost predicate OneProbe(w: World) {
    w.breaker.state.HALF_OPEN? ==> w.breaker.probe && exists id :: Probes(w) == {id}
  }

  predicate Patient(acts: seq<Action>) {
    forall i | 0 <= i < |acts| && acts[i].Enter? :: acts[i].maxRetries >= 0
  }

  lemma StepInv(w: World, a: Action)
    requires Inv(w) && Enabled(w, a)
    ensures Inv(Apply(w, a))
  {
  }

  lemma StepOneProbe(w: World, a: Action)
    requires Inv(w) && OneProbe(w) && Enabled(w, a)
    requires a.Enter? ==> a.maxRetries >= 0
    ensures OneProbe(Apply(w, a))
  {
    var v := Apply(w, a);
    if v.breaker.state.HALF_OPEN? {
      if Admitted(w, a) {
        assert Probes(v) == {a.id};
      } else {
        assert Probes(v) == Probes(w);
      }
    }
  }

  /** However calls overlap, and whatever their retry limits: the breaker is closed exactly while
      fewer than five failures are counted, and no call makes more than `maxRetries + 1` attempts. */
  lemma {:induction false} RunInv(w: World, acts: seq<Action>)
    requires Inv(w) && CanRun(w, acts)
    ensures Inv(End(w, acts))
    decreases |acts|
  {
    if acts != [] {
      StepInv(w, acts[0]);
      RunInv(Apply(w, acts[0]), acts[1..]);
    }
  }

  lemma {:induction false} RunOneProbe(w: World, acts: seq<Action>)
    requires Inv(w) && OneProbe(w) && CanRun(w, acts) && Patient(acts)
    ensures OneProbe(End(w, acts))
    decreases |acts|
  {
    if acts != [] {
      StepInv(w, acts[0]);
      StepOneProbe(w, acts[0]);
      RunOneProbe(Apply(w, acts[0]), acts[1..]);
    }
  }

  lemma ClosedExactlyBelowThreshold(acts: seq<Action>)
    requires CanRun(INITIAL, acts)
    ensures var b := End(INITIAL, acts).breaker; b.state.CLOSED? <==> b.failures < 5
  {
    RunInv(INITIAL, acts);
  }

  /** However calls overlap, none makes more than `maxRetries + 1` attempts. */
  lemma AttemptsWithinLimit(acts: seq<Action>, id: nat)
    requires CanRun(INITIAL, acts) && id in End(INITIAL, acts).calls
    ensures var call := End(INITIAL, acts).calls[id]; 1 <= call.attempt <= call.maxRetries + 1
  {
    RunInv(INITIAL, acts);
  }

  /** How many calls end in failure over a run. */
  function FailedCalls(w: World, acts: seq<Action>): nat
    requires CanRun(w, acts)
    decreases |acts|
  {
    if acts == [] then 0
    else
      var v := Apply(w, acts[0]);
      (if acts[0].Settle? && !acts[0].outcome.Done? && acts[0].id !in v.calls then 1 else 0) + FailedCalls(v, acts[1..])
  }

  /** Between successes and interventions every failed call counts, each exactly once, and a transient
      failure that is tried again does not. */
  lemma {:induction false} FailuresCounted(w: World, acts: seq<Action>)
    requires CanRun(w, acts) && NoRelief(acts) && NoOperator(acts)
    ensures End(w, acts).breaker.failures == w.breaker.failures + FailedCalls(w, acts)
    decreases |acts|
  {
    if acts != [] {
      FailuresCounted(Apply(w, acts[0]), acts[1..]);
    }
  }

  /** When a call is let in: always while closed, more than 60000 ms after the last failure while open, and
      while half open only if no probe is out. */
  lemma AdmittedIff(w: World, id: nat, maxRetries: int, now: nat)
    requires Enabled(w, Enter(id, maxRetries, now))
    ensures Admitted(w, Enter(id, maxRetries, now)) <==>
              || w.breaker.state == CLOSED
              || (w.breaker.state == OPEN && now > w.breaker.lastFailure + 60000)
              || (w.breaker.state == HALF_OPEN && !w.breaker.probe)
    ensures var v := Apply(w, Enter(id, maxRetries, now));
            if Admitted(w, Enter(id, maxRetries, now)) then
              && (id in v.calls <==> maxRetries >= 0)
              && (id in v.calls ==> v.calls[id].attempt == 1 && v.calls[id].maxRetries == maxRetries)
              && v.breaker.failures == w.breaker.failures && v.breaker.lastFailure == w.breaker.lastFailure
              && (w.breaker.state == CLOSED ==> v.breaker == w.breaker)
              && (w.breaker.state != CLOSED ==> v.breaker.state == HALF_OPEN && v.breaker.probe)
            else v.breaker == w.breaker && v.calls == w.calls
  {
  }

  /** When a failed attempt is the last: it is not transient, or all retries are used up. */
  lemma CallEndsIff(w: World, id: nat, outcome: Outcome, now: nat)
    requires Enabled(w, Settle(id, outcome, now))
    ensures id !in Apply(w, Settle(id, outcome, now)).calls <==>
              outcome == Done || outcome == Permanent || w.calls[id].attempt >= w.calls[id].maxRetries + 1
    ensures id in Apply(w, Settle(id, outcome, now)).calls ==>
              Apply(w, Settle(id, outcome, now)).calls[id] == w.calls[id].(attempt := w.calls[id].attempt + 1)
  {
  }

  /** A success, in whatever state the breaker is, leaves it closed with no failure counted and no probe. */
  lemma SuccessClears(w: World, id: nat, now: nat)
    requires Enabled(w, Settle(id, Done, now))
    ensures var v := Apply(w, Settle(id, Done, now));
            && v.breaker == Breaker(CLOSED, 0, w.breaker.lastFailure, false)
            && v.calls == w.calls - {id}
  {
  }

  /** From a success on, the breaker stays closed through four failed calls and opens with the fifth. */
  lemma OpensAtFifth(w: World, id: nat, now: nat, acts: seq<Action>)
    requires Inv(w) && Enabled(w, Settle(id, Done, now))
    requires var v := Apply(w, Settle(id, Done, now)); CanRun(v, acts) && NoRelief(acts) && NoOperator(acts)
    ensures var v := Apply(w, Settle(id, Done, now));
            End(v, acts).breaker.state.CLOSED? <==> FailedCalls(v, acts) < 5
  {
    var v := Apply(w, Settle(id, Done, now));
    SuccessClears(w, id, now);
    StepInv(w, Settle(id, Done, now));
    RunInv(v, acts);
    FailuresCounted(v, acts);
  }

  /** A recorded failure stamps the time; tripping opens for a full cooldown; resetting forgets everything. */
  lemma OtherSteps(w: World, a: Action)
    requires Enabled(w, a)
    ensures a.Settle? && a.outcome != Done && a.id !in Apply(w, a).calls ==>
              Apply(w, a).breaker.lastFailure == a.now && Apply(w, a).breaker.probe == w.breaker.probe
    ensures a.Settle? && a.id in Apply(w, a).calls ==> Apply(w, a).breaker == w.breaker
    ensures a.ForceTrip? ==>
              Apply(w, a).breaker == Breaker(OPEN, 5, a.now, w.breaker.probe) && Apply(w, a).calls == w.calls
    ensures a.Reset? ==> Apply(w, a).breaker == Breaker(CLOSED, 0, 0, false) && Apply(w, a).calls == w.calls
  {
  }

  /** While half open there is exactly one call of the episode, it is still in flight, nothing else is
      admitted, and once it ends, well or badly, the breaker is no longer half open. */
  lemma HalfOpenHasOneProbe(acts: seq<Action>) returns (probe: nat)
    requires CanRun(INITIAL, acts) && Patient(acts) && End(INITIAL, acts).breaker.state.HALF_OPEN?
    ensures var w := End(INITIAL, acts);
            && probe in w.calls && Probes(w) == {probe}
            && (forall a :: Enabled(w, a) ==> !Admitted(w, a))
            && forall a :: Enabled(w, a) && a.Settle? && a.id == probe && probe !in Apply(w, a).calls ==>
                             !Apply(w, a).breaker.state.HALF_OPEN?
  {
    RunInv(INITIAL, acts);
    RunOneProbe(INITIAL, acts);
    var w := End(INITIAL, acts);
    probe :| Probes(w) == {probe};
    assert probe in Probes(w);
  }

  // ----- The cooldown -----

  /** No success is recorded and nobody resets the breaker. */
  predicate NoRelief(acts: seq<Action>) {
    forall i | 0 <= i < |acts| :: !acts[i].Reset? && (acts[i].Settle? ==> !acts[i].outcome.Done?)
  }

  /** How many calls a run admits. */
  function Admissions(w: World, acts: seq<Action>): nat
    requires CanRun(w, acts)
    decreases |acts|
  {
    if acts == [] then 0
    else (if Admitted(w, acts[0]) then 1 else 0) + Admissions(Apply(w, acts[0]), acts[1..])
  }

  /** The moment before which the current cooldown cannot have started. */
  function Since(w: World): nat {
    if w.breaker.state.OPEN? then w.breaker.lastFailure else w.clock
  }

  /** From an open breaker, as long as nothing succeeds and nobody resets it, every admission costs more
      than a full cooldown: in `t` milliseconds after the last failure fewer than t / 60000 calls get
      through, and in particular none in the first 60000. */
  lemma CooldownHolds(w: World, acts: seq<Action>)
    requires Inv(w) && w.breaker.state.OPEN? && CanRun(w, acts) && NoRelief(acts)
    ensures Admissions(w, acts) * (COOLDOWN_MS + 1) <= End(w, acts).clock - w.breaker.lastFailure
  {
    CooldownFrom(w, acts);
  }

  /** While half open the probe flag is set, even when the probe's own call is already gone. */
  predicate FlagSet(b: Breaker) {
    b.state.HALF_OPEN? ==> b.probe
  }

  lemma {:induction false} CooldownFrom(w: World, acts: seq<Action>)
    requires Inv(w) && FlagSet(w.breaker) && !w.breaker.state.CLOSED? && CanRun(w, acts) && NoRelief(acts)
    ensures Admissions(w, acts) * (COOLDOWN_MS + 1) <= End(w, acts).clock - Since(w)
    decreases |acts|
  {
    if acts != [] {
      StepInv(w, acts[0]);
      CooldownStep(w, acts[0]);
      CooldownFrom(Apply(w, acts[0]), acts[1..]);
    }
  }

  lemma CooldownStep(w: World, a: Action)
    requires Inv(w) && FlagSet(w.breaker) && !w.breaker.state.CLOSED? && Enabled(w, a)
    requires !a.Reset? && (a.Settle? ==> !a.outcome.Done?)
    ensures !Apply(w, a).breaker.state.CLOSED? && FlagSet(Apply(w, a).breaker)
    ensures Since(Apply(w, a)) >= Since(w) + if Admitted(w, a) then COOLDOWN_MS + 1 else 0
  {
  }

  /** A call that is let in and fails for good at its first attempt, at one moment. */
  function FailedProbe(id: nat, now: nat): seq<Action> {
    [Enter(id, 0, now), Settle(id, Permanent, now)]
  }

  lemma FailedProbeRuns(w: World, id: nat, now: nat, rest: seq<Action>)
    requires w.breaker.state.OPEN? && w.calls == map[] && w.clock <= now && now > w.breaker.lastFailure + COOLDOWN_MS
    ensures var v := World(AfterFailure(Admit(w.breaker, now), now), map[], now, w.episode + 1);
            && v.breaker.state.OPEN?
            && (CanRun(v, rest) ==>
                  && CanRun(w, FailedProbe(id, now) + rest)
                  && End(w, FailedProbe(id, now) + rest) == End(v, rest)
                  && Admissions(w, FailedProbe(id, now) + rest) == 1 + Admissions(v, rest))
  {
    var enter, fail := Enter(id, 0, now), Settle(id, Permanent, now);
    var u := Apply(w, enter);
    var v := Apply(u, fail);
    assert v.calls == map[];
    var acts := FailedProbe(id, now) + rest;
    assert acts[0] == enter && acts[1..][0] == fail && acts[1..][1..] == rest;
    assert !Admitted(u, fail);
    hide Apply, Enabled, Admitted;
    if CanRun(v, rest) {
      assert CanRun(u, acts[1..]) && End(u, acts[1..]) == End(v, rest);
    }
  }

  /** The bound is attained: a provider that stays down lets one probe through for each 60001 milliseconds. */
  lemma {:induction false} CooldownAttained(w: World, k: nat) returns (acts: seq<Action>)
    requires w.breaker.state.OPEN? && w.calls == map[] && w.clock <= w.breaker.lastFailure + COOLDOWN_MS + 1
    ensures CanRun(w, acts) && Patient(acts) && NoRelief(acts)
    ensures Admissions(w, acts) == k
    ensures End(w, acts).clock == if k == 0 then w.clock else w.breaker.lastFailure + k * (COOLDOWN_MS + 1)
    decreases k
  {
    if k == 0 {
      acts := [];
    } else {
      var now := w.breaker.lastFailure + COOLDOWN_MS + 1;
      FailedProbeRuns(w, 0, now, []);
      var v := World(AfterFailure(Admit(w.breaker, now), now), map[], now, w.episode + 1);
      var rest := CooldownAttained(v, k - 1);
      FailedProbeRuns(w, 0, now, rest);
      acts := FailedProbe(0, now) + rest;
      hide Admit, AfterFailure;
    }
  }

  // ----- A negative retry limit -----

  predicate NoOperator(acts: seq<Action>) {
    forall i | 0 <= i < |acts| :: !acts[i].Reset? && !acts[i].ForceTrip?
  }

  /** A breaker left half open with no call in flight never admits anything again by itself. */
  lemma {:induction false} StuckForever(w: World, acts: seq<Action>)
    requires w.breaker.state.HALF_OPEN? && w.breaker.probe && w.calls == map[]
    requires CanRun(w, acts) && NoOperator(acts)
    ensures Admissions(w, acts) == 0 && End(w, acts).breaker == w.breaker
    decreases |acts|
  {
    if acts != [] {
      StuckForever(Apply(w, acts[0]), acts[1..]);
    }
  }

  /** A negative retry limit is exactly what breaks the rule of the one probe: whatever else is in flight,
      the admitted probe is there to report back if and only if its limit is not negative; with nothing else
      in flight nobody is left at all. */
  lemma NegativeLimitSticks(w: World, id: nat, maxRetries: int, now: nat)
    requires Inv(w) && w.breaker.state.OPEN?
    requires Enabled(w, Enter(id, maxRetries, now)) && Admitted(w, Enter(id, maxRetries, now))
    ensures var v := Apply(w, Enter(id, maxRetries, now));
            && v.breaker.state.HALF_OPEN? && v.breaker.probe
            && (OneProbe(v) <==> maxRetries >= 0)
            && (v.calls == map[] <==> maxRetries < 0 && w.calls == map[])
  {
    var v := Apply(w, Enter(id, maxRetries, now));
    if maxRetries >= 0 {
      assert id in v.calls;
      assert Probes(v) == {id};
    } else {
      assert Probes(v) == {};
    }
  }
}

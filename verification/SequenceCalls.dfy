/** Identifier calls that overlap. A call reads the counter with a plain query, probes candidates one by
    one and at the end writes a literal value back; nothing locks the counter in between. */
module SequenceCalls {
  import opened Wrappers
  import opened Sequence

  /** A call under way. `saw` are the calls whose writes led to the counter it has read. */
  datatype Call = Call(read: Option<nat>, saw: set<nat>, compact: bool, start: nat, next: nat, found: bool)

  datatype Finished = Finished(read: Option<nat>, saw: set<nat>, issue: Issue)

  /** `lineage` are the calls whose writes led to the present counter. */
  datatype World = World(current: Option<nat>, lineage: set<nat>, flight: map<nat, Call>, done: map<nat, Finished>)

  /** `taken` is what the database answers to a probe. A failed transaction is rolled back and may begin
      again. */
  datatype Action =
    | Read(id: nat, records: Records)
    | Probe(id: nat, taken: bool)
    | Store(id: nat)
    | RollBack(id: nat)

  function Initially(current: Option<nat>): World {
    World(current, {}, map[], map[])
  }

  predicate Probing(c: Call) {
    !c.found && c.next < c.start + TRIES
  }

  predicate Enabled(w: World, a: Action) {
    match a
    case Read(id, _) => id !in w.flight && id !in w.done
    case Probe(id, _) => id in w.flight && Probing(w.flight[id])
    case Store(id) => id in w.flight && !Probing(w.flight[id])
    case RollBack(id) => id in w.flight
  }

  function Issued(s: Series, c: Call): Issue
    requires !Probing(c)
  {
    var number := if c.found then c.next else c.next - 1;
    Issue(Candidate(s, c.compact, number), number, c.compact, c.next)
  }

  function Apply(s: Series, w: World, a: Action): World
    requires Enabled(w, a)
  {
    match a
    case Read(id, records) =>
      var start := Start(s, w.current, records);
      w.(flight := w.flight[id := Call(w.current, w.lineage, Compact(s, w.current, records), start, start, false)])
    case Probe(id, taken) =>
      var c := w.flight[id];
      w.(flight := w.flight[id := if taken then c.(next := c.next + 1) else c.(found := true)])
    case Store(id) =>
      var c := w.flight[id];
      World(Some(c.next), c.saw + {id}, w.flight - {id}, w.done[id := Finished(c.read, c.saw, Issued(s, c))])
    case RollBack(id) => w.(flight := w.flight - {id})
  }

  predicate CanRun(s: Series, w: World, acts: seq<Action>)
    decreases |acts|
  {
    acts == [] || (Enabled(w, acts[0]) && CanRun(s, Apply(s, w, acts[0]), acts[1..]))
  }

  function End(s: Series, w: World, acts: seq<Action>): World
    requires CanRun(s, w, acts)
    decreases |acts|
  {
    if acts == [] then w else End(s, Apply(s, w, acts[0]), acts[1..])
  }

  // ----- Reading what another call has stored -----

  predicate BelowAll(done: map<nat, Finished>, ids: set<nat>, bound: nat) {
    forall i | i in ids :: i in done && done[i].issue.number < bound
  }

  predicate FlightOk(w: World, c: Call) {
    BelowAll(w.done, c.saw, c.start) && c.start <= c.next <= c.start + TRIES && (c.found ==> c.next < c.start + TRIES)
  }

  predicate DoneOk(s: Series, w: World, f: Finished) {
    && BelowAll(w.done, f.saw, f.issue.number)
    && f.issue.identifier == Candidate(s, f.issue.compact, f.issue.number)
  }

  ghost predicate Inv(s: Series, w: World) {
    && (w.lineage != {} ==> w.current.Some? && BelowAll(w.done, w.lineage, w.current.value + 1))
    && (forall id | id in w.flight :: id !in w.done && FlightOk(w, w.flight[id]))
    && (forall id | id in w.done :: DoneOk(s, w, w.done[id]))
  }

  lemma BelowMore(done: map<nat, Finished>, id: nat, f: Finished, ids: set<nat>, bound: nat)
    requires BelowAll(done, ids, bound) && id !in done
    ensures BelowAll(done[id := f], ids, bound)
  {
  }

  lemma StoreStep(s: Series, w: World, id: nat)
    requires Inv(s, w) && Enabled(w, Store(id))
    ensures Inv(s, Apply(s, w, Store(id)))
  {
    hide Candidate;
    var v, c := Apply(s, w, Store(id)), w.flight[id];
    var f := v.done[id];
    assert FlightOk(w, c) && c.start <= f.issue.number <= c.next;
    forall i | i in c.saw ensures i in v.done && v.done[i].issue.number < c.start {
    }
    forall j | j in v.flight ensures j !in v.done && FlightOk(v, v.flight[j]) {
      BelowMore(w.done, id, f, w.flight[j].saw, w.flight[j].start);
    }
    forall j | j in v.done ensures DoneOk(s, v, v.done[j]) {
      if j != id { BelowMore(w.done, id, f, w.done[j].saw, w.done[j].issue.number); }
    }
  }

  lemma StepInv(s: Series, w: World, a: Action)
    requires Inv(s, w) && Enabled(w, a)
    ensures Inv(s, Apply(s, w, a))
  {
    hide Candidate, Compact;
    match a
    case Store(id) => StoreStep(s, w, id);
    case Read(id, records) =>
      var c := Apply(s, w, a).flight[id];
      assert w.lineage != {} ==> c.start == w.current.value + 1;
    case _ =>
  }

  lemma {:induction false} RunInv(s: Series, w: World, acts: seq<Action>)
    requires Inv(s, w) && CanRun(s, w, acts)
    ensures Inv(s, End(s, w, acts))
    decreases |acts|
  {
    if acts != [] {
      StepInv(s, w, acts[0]);
      hide Inv;
      RunInv(s, Apply(s, w, acts[0]), acts[1..]);
    }
  }

  /** In every run, whatever the database answers and however calls overlap: of two calls with one
      identifier, neither has read a counter that the other stored, nor one that led back to it. */
  lemma RepeatsReadApart(s: Series, current: Option<nat>, acts: seq<Action>, i: nat, j: nat)
    requires CanRun(s, Initially(current), acts)
    requires var done := End(s, Initially(current), acts).done;
             i in done && j in done && i != j && done[i].issue.identifier == done[j].issue.identifier
    ensures var done := End(s, Initially(current), acts).done;
            i !in done[j].saw && j !in done[i].saw
  {
    RunInv(s, Initially(current), acts);
    var w := End(s, Initially(current), acts);
    var f, g := w.done[i].issue, w.done[j].issue;
    assert DoneOk(s, w, w.done[i]) && DoneOk(s, w, w.done[j]);
    if f.number != g.number { CandidatesDiffer(s, f.compact, f.number, g.compact, g.number); }
  }

  // ----- One call at a time -----

  /** A call begins only when no other is under way. */
  predicate Serial(s: Series, w: World, acts: seq<Action>)
    requires CanRun(s, w, acts)
    decreases |acts|
  {
    acts != [] ==> (acts[0].Read? ==> w.flight == map[]) && Serial(s, Apply(s, w, acts[0]), acts[1..])
  }

  ghost predicate InTurn(w: World) {
    && w.lineage == w.done.Keys
    && (forall i, j | i in w.flight && j in w.flight :: i == j)
    && (forall i | i in w.flight :: w.flight[i].saw == w.done.Keys)
    && (forall i, j | i in w.done && j in w.done && i != j :: i in w.done[j].saw || j in w.done[i].saw)
  }

  lemma {:induction false} SerialInTurn(s: Series, w: World, acts: seq<Action>)
    requires InTurn(w) && CanRun(s, w, acts) && Serial(s, w, acts)
    ensures InTurn(End(s, w, acts))
    decreases |acts|
  {
    if acts != [] {
      InTurnStep(s, w, acts[0]);
      hide InTurn;
      SerialInTurn(s, Apply(s, w, acts[0]), acts[1..]);
    }
  }

  lemma InTurnStep(s: Series, w: World, a: Action)
    requires InTurn(w) && Enabled(w, a) && (a.Read? ==> w.flight == map[])
    ensures InTurn(Apply(s, w, a))
  {
    hide Issued, Start, Compact;
  }

  /** One call at a time, no identifier is issued twice. */
  lemma SerialNeverRepeats(s: Series, current: Option<nat>, acts: seq<Action>, i: nat, j: nat)
    requires CanRun(s, Initially(current), acts) && Serial(s, Initially(current), acts)
    requires var done := End(s, Initially(current), acts).done; i in done && j in done && i != j
    ensures var done := End(s, Initially(current), acts).done; done[i].issue.identifier != done[j].issue.identifier
  {
    hide Inv;
    SerialInTurn(s, Initially(current), acts);
    var done := End(s, Initially(current), acts).done;
    if done[i].issue.identifier == done[j].issue.identifier {
      RepeatsReadApart(s, current, acts, i, j);
    }
  }

  // ----- When calls do repeat -----

  /** The records stay as they are while the calls run, as they do when the callers insert theirs later. */
  predicate Steady(s: Series, w: World, acts: seq<Action>, r: Records)
    requires CanRun(s, w, acts)
    decreases |acts|
  {
    acts != [] ==> Answers(s, w, acts[0], r) && Steady(s, Apply(s, w, acts[0]), acts[1..], r)
  }

  predicate Answers(s: Series, w: World, a: Action, r: Records)
    requires Enabled(w, a)
  {
    && (a.Read? ==> a.records == r)
    && (a.Probe? ==> (a.taken <==> Taken(s, w.flight[a.id].compact, r, w.flight[a.id].next)))
  }

  /** What the search has found so far is what the undisturbed search finds. */
  predicate OnTrack(s: Series, c: Call, r: Records) {
    && c.start == Start(s, c.read, r) && c.compact == Compact(s, c.read, r)
    && c.start <= c.next <= c.start + TRIES
    && var free := FirstFree(s, c.compact, r, c.start, TRIES);
       if c.found then c.next == free < c.start + TRIES
       else FirstFree(s, c.compact, r, c.next, c.start + TRIES - c.next) == free
  }

  predicate FlightAlone(s: Series, c: Call, r: Records, initial: Option<nat>) {
    OnTrack(s, c, r) && (c.saw == {} ==> c.read == initial)
  }

  predicate DoneAlone(s: Series, f: Finished, r: Records, initial: Option<nat>) {
    f.issue == Generate(s, f.read, r) && (f.saw == {} ==> f.read == initial)
  }

  ghost predicate AsAlone(s: Series, w: World, r: Records, initial: Option<nat>) {
    && (w.lineage == {} ==> w.current == initial)
    && (forall id | id in w.flight :: FlightAlone(s, w.flight[id], r, initial))
    && (forall id | id in w.done :: DoneAlone(s, w.done[id], r, initial))
  }

  lemma ProbeOnTrack(s: Series, c: Call, r: Records)
    requires OnTrack(s, c, r) && Probing(c)
    ensures OnTrack(s, if Taken(s, c.compact, r, c.next) then c.(next := c.next + 1) else c.(found := true), r)
  {
    hide Start, Compact, Taken;
  }

  lemma IssuedOnTrack(s: Series, c: Call, r: Records)
    requires OnTrack(s, c, r) && !Probing(c)
    ensures Issued(s, c) == Generate(s, c.read, r)
  {
    hide Start, Compact, Taken, Candidate;
  }

  lemma AsAloneStep(s: Series, w: World, a: Action, r: Records, initial: Option<nat>)
    requires AsAlone(s, w, r, initial) && Enabled(w, a) && Answers(s, w, a, r)
    ensures AsAlone(s, Apply(s, w, a), r, initial)
  {
    hide FlightAlone, DoneAlone, Issued, Start, Compact;
    match a
    case Read(id, _) => ReadAlone(s, w.current, w.lineage, r, initial);
    case Probe(id, _) => ProbeAlone(s, w.flight[id], r, initial);
    case Store(id) => StoreAlone(s, w.flight[id], r, initial);
    case RollBack(_) =>
  }

  lemma ReadAlone(s: Series, current: Option<nat>, saw: set<nat>, r: Records, initial: Option<nat>)
    requires saw == {} ==> current == initial
    ensures var start := Start(s, current, r);
            FlightAlone(s, Call(current, saw, Compact(s, current, r), start, start, false), r, initial)
  {
    StartsOnTrack(s, current, saw, r);
    hide OnTrack, Start, Compact;
  }

  lemma ProbeAlone(s: Series, c: Call, r: Records, initial: Option<nat>)
    requires FlightAlone(s, c, r, initial) && Probing(c)
    ensures var probed := if Taken(s, c.compact, r, c.next) then c.(next := c.next + 1) else c.(found := true);
            FlightAlone(s, probed, r, initial)
  {
    ProbeOnTrack(s, c, r);
    hide OnTrack, Taken, Probing;
  }

  lemma StoreAlone(s: Series, c: Call, r: Records, initial: Option<nat>)
    requires FlightAlone(s, c, r, initial) && !Probing(c)
    ensures DoneAlone(s, Finished(c.read, c.saw, Issued(s, c)), r, initial)
  {
    IssuedOnTrack(s, c, r);
    hide OnTrack, Probing, Issued, Generate;
  }

  lemma StartsOnTrack(s: Series, current: Option<nat>, saw: set<nat>, r: Records)
    ensures var start := Start(s, current, r);
            OnTrack(s, Call(current, saw, Compact(s, current, r), start, start, false), r)
  {
    hide Start, Compact, FirstFree;
  }

  lemma {:induction false} SteadyAsAlone(s: Series, w: World, acts: seq<Action>, r: Records, initial: Option<nat>)
    requires AsAlone(s, w, r, initial) && CanRun(s, w, acts) && Steady(s, w, acts, r)
    ensures AsAlone(s, End(s, w, acts), r, initial)
    decreases |acts|
  {
    if acts != [] {
      AsAloneStep(s, w, acts[0], r, initial);
      hide AsAlone, Answers;
      SteadyAsAlone(s, Apply(s, w, acts[0]), acts[1..], r, initial);
    }
  }

  lemma SteadyFacts(s: Series, current: Option<nat>, acts: seq<Action>, r: Records)
    requires CanRun(s, Initially(current), acts) && Steady(s, Initially(current), acts, r)
    ensures AsAlone(s, End(s, Initially(current), acts), r, current)
  {
    SteadyAsAlone(s, Initially(current), acts, r, current);
  }

  predicate OnlyCalls(acts: seq<Action>, i: nat, j: nat) {
    forall k | 0 <= k < |acts| :: acts[k].id == i || acts[k].id == j
  }

  predicate KnownIds(w: World, ids: set<nat>) {
    && w.lineage <= ids
    && (forall k | k in w.flight :: w.flight[k].saw <= ids - {k})
    && (forall k | k in w.done :: w.done[k].saw <= ids - {k})
    && w.lineage <= w.done.Keys
    && forall k | k in w.flight :: k !in w.done && w.flight[k].saw <= w.done.Keys
  }

  lemma {:induction false} OnlyKnown(s: Series, w: World, acts: seq<Action>, i: nat, j: nat)
    requires CanRun(s, w, acts) && OnlyCalls(acts, i, j) && KnownIds(w, {i, j})
    ensures KnownIds(End(s, w, acts), {i, j})
    decreases |acts|
  {
    hide Issued, Start, Compact;
    if acts != [] {
      OnlyKnown(s, Apply(s, w, acts[0]), acts[1..], i, j);
    }
  }

  /** Two calls, in any interleaving: they return one identifier if and only if neither has read a counter
      stored by the other, that is, exactly if both read before either stored. */
  lemma TwoCallsRepeatIff(s: Series, current: Option<nat>, acts: seq<Action>, r: Records, i: nat, j: nat)
    requires CanRun(s, Initially(current), acts) && Steady(s, Initially(current), acts, r)
    requires i != j && OnlyCalls(acts, i, j)
    requires var done := End(s, Initially(current), acts).done; i in done && j in done
    ensures var done := End(s, Initially(current), acts).done;
            done[i].issue.identifier == done[j].issue.identifier <==> i !in done[j].saw && j !in done[i].saw
  {
    hide Inv, Generate;
    var w := End(s, Initially(current), acts);
    SteadyFacts(s, current, acts, r);
    OnlyKnown(s, Initially(current), acts, i, j);
    assert i !in w.done[j].saw && j !in w.done[i].saw ==> w.done[i].saw == {} && w.done[j].saw == {};
    if w.done[i].issue.identifier == w.done[j].issue.identifier {
      RepeatsReadApart(s, current, acts, i, j);
    }
  }

  /** The counter after `k` calls one after the other. */
  function After(s: Series, c0: Option<nat>, r: Records, k: nat): (c: Option<nat>)
    ensures k > 0 ==> c.Some?
  {
    if k == 0 then c0 else Some(Generate(s, After(s, c0, r, k - 1), r).counter)
  }

  /** A counter that calls one after the other would also have left. */
  ghost predicate OnOrbit(s: Series, c0: Option<nat>, r: Records, c: Option<nat>) {
    exists k: nat :: After(s, c0, r, k) == c
  }

  lemma OrbitGoesOn(s: Series, c0: Option<nat>, r: Records, c: Option<nat>)
    requires OnOrbit(s, c0, r, c)
    ensures OnOrbit(s, c0, r, Some(Generate(s, c, r).counter))
  {
    var k: nat :| After(s, c0, r, k) == c;
    assert After(s, c0, r, k + 1) == Some(Generate(s, c, r).counter);
    hide Generate;
  }

  ghost predicate AllOnOrbit(s: Series, w: World, r: Records, c0: Option<nat>) {
    && OnOrbit(s, c0, r, w.current)
    && (forall k | k in w.flight :: OnOrbit(s, c0, r, w.flight[k].read))
    && (forall k | k in w.done :: OnOrbit(s, c0, r, w.done[k].read))
  }

  lemma OrbitStep(s: Series, w: World, a: Action, r: Records, c0: Option<nat>)
    requires AllOnOrbit(s, w, r, c0) && AsAlone(s, w, r, c0) && Enabled(w, a) && Answers(s, w, a, r)
    ensures AllOnOrbit(s, Apply(s, w, a), r, c0)
  {
    hide OnOrbit, FlightAlone, DoneAlone, Start, Compact, Taken;
    if a.Store? {
      var c := w.flight[a.id];
      AloneOnTrack(s, c, r, c0);
      IssuedOnTrack(s, c, r);
      OrbitGoesOn(s, c0, r, c.read);
    }
    hide Generate;
  }

  lemma AloneOnTrack(s: Series, c: Call, r: Records, initial: Option<nat>)
    requires FlightAlone(s, c, r, initial)
    ensures OnTrack(s, c, r)
  {
  }

  lemma {:induction false} SteadyOnOrbit(s: Series, w: World, acts: seq<Action>, r: Records, c0: Option<nat>)
    requires AllOnOrbit(s, w, r, c0) && AsAlone(s, w, r, c0) && CanRun(s, w, acts) && Steady(s, w, acts, r)
    ensures AllOnOrbit(s, End(s, w, acts), r, c0)
    decreases |acts|
  {
    if acts != [] {
      OrbitStep(s, w, acts[0], r, c0);
      AsAloneStep(s, w, acts[0], r, c0);
      hide AsAlone, AllOnOrbit, Answers;
      SteadyOnOrbit(s, Apply(s, w, acts[0]), acts[1..], r, c0);
    }
  }

  /** Along the orbit each number issued lies at or below every later counter. */
  lemma {:induction false} OrbitRises(s: Series, c0: Option<nat>, r: Records, i: nat, j: nat)
    requires i < j
    ensures Generate(s, After(s, c0, r, i), r).number <= After(s, c0, r, j).value
    decreases j - i
  {
    hide Generate;
    CounterIncreases(s, After(s, c0, r, i), r);
    if i + 1 < j {
      CounterIncreases(s, After(s, c0, r, j - 1), r);
      OrbitRises(s, c0, r, i, j - 1);
    }
  }

  lemma LaterReadDiffers(s: Series, c0: Option<nat>, r: Records, i: nat, j: nat)
    requires i < j
    ensures Generate(s, After(s, c0, r, i), r).identifier != Generate(s, After(s, c0, r, j), r).identifier
  {
    hide Generate, After, Candidate;
    var c, d := After(s, c0, r, i), After(s, c0, r, j);
    OrbitRises(s, c0, r, i, j);
    CounterIncreases(s, c, r);
    CounterIncreases(s, d, r);
    var one, other := Generate(s, c, r), Generate(s, d, r);
    CandidatesDiffer(s, one.compact, one.number, other.compact, other.number);
  }

  /** Any number of calls, in any interleaving, on a new or an existing counter: two of them return one
      identifier if and only if they have read the same counter. */
  lemma RepeatIffSameRead(s: Series, c0: Option<nat>, acts: seq<Action>, r: Records, i: nat, j: nat)
    requires CanRun(s, Initially(c0), acts) && Steady(s, Initially(c0), acts, r)
    requires var done := End(s, Initially(c0), acts).done; i in done && j in done
    ensures var done := End(s, Initially(c0), acts).done;
            done[i].issue.identifier == done[j].issue.identifier <==> done[i].read == done[j].read
  {
    hide Generate, After;
    assert After(s, c0, r, 0) == c0 by { FirstOnOrbit(s, c0, r); }
    SteadyFacts(s, c0, acts, r);
    SteadyOnOrbit(s, Initially(c0), acts, r, c0);
    var done := End(s, Initially(c0), acts).done;
    assert OnOrbit(s, c0, r, done[i].read) && OnOrbit(s, c0, r, done[j].read);
    var m: nat :| After(s, c0, r, m) == done[i].read;
    var n: nat :| After(s, c0, r, n) == done[j].read;
    if m < n { LaterReadDiffers(s, c0, r, m, n); }
    if n < m { LaterReadDiffers(s, c0, r, n, m); }
  }

  lemma FirstOnOrbit(s: Series, c0: Option<nat>, r: Records)
    ensures After(s, c0, r, 0) == c0
  {
  }

  /** Two overlapping calls, concretely: for every series and counter whose next number is free, both
      return that one number, which nobody has taken. */
  lemma OverlapRepeats(s: Series, c: nat, r: Records)
    requires !Taken(s, false, r, c + 1)
    ensures var acts := [Read(1, r), Read(2, r), Probe(1, false), Probe(2, false), Store(1), Store(2)];
            && CanRun(s, Initially(Some(c)), acts) && Steady(s, Initially(Some(c)), acts, r)
            && var done := End(s, Initially(Some(c)), acts).done;
               && 1 in done && 2 in done
               && done[1].issue.identifier == done[2].issue.identifier == Candidate(s, false, c + 1)
               && Candidate(s, false, c + 1) !in r.identifiers
  {
    hide Candidate;
    var a := [Read(1, r), Read(2, r), Probe(1, false), Probe(2, false), Store(1), Store(2)];
    var w0 := Initially(Some(c));
    var w1 := Apply(s, w0, a[0]);
    var w2 := Apply(s, w1, a[1]);
    var w3 := Apply(s, w2, a[2]);
    var w4 := Apply(s, w3, a[3]);
    var w5 := Apply(s, w4, a[4]);
    var w6 := Apply(s, w5, a[5]);
    FirstSteps(s, w4, a, r, w6);
    Prepend(s, w3, a[3], a[4..], r);
    Prepend(s, w2, a[2], a[3..], r);
    Prepend(s, w1, a[1], a[2..], r);
    Prepend(s, w0, a[0], a[1..], r);
    assert a[3..] == [a[3]] + a[4..] && a[2..] == [a[2]] + a[3..] && a[1..] == [a[1]] + a[2..] && a == [a[0]] + a[1..];
    hide Apply;
  }

  lemma FirstSteps(s: Series, w4: World, a: seq<Action>, r: Records, w6: World)
    requires |a| == 6 && Enabled(w4, a[4]) && a[4].Store? && a[5].Store?
    requires Enabled(Apply(s, w4, a[4]), a[5]) && w6 == Apply(s, Apply(s, w4, a[4]), a[5])
    ensures CanRun(s, w4, a[4..]) && Steady(s, w4, a[4..], r) && End(s, w4, a[4..]) == w6
  {
    assert a[4..] == [a[4]] + [a[5]] && [a[5]] == [a[5]] + [];
    Prepend(s, Apply(s, w4, a[4]), a[5], [], r);
    Prepend(s, w4, a[4], [a[5]], r);
    hide Apply, Enabled;
  }

  lemma Prepend(s: Series, w: World, a: Action, acts: seq<Action>, r: Records)
    requires Enabled(w, a) && Answers(s, w, a, r)
    requires CanRun(s, Apply(s, w, a), acts) && Steady(s, Apply(s, w, a), acts, r)
    ensures CanRun(s, w, [a] + acts) && Steady(s, w, [a] + acts, r)
    ensures End(s, w, [a] + acts) == End(s, Apply(s, w, a), acts)
  {
    assert ([a] + acts)[1..] == acts;
    hide Apply, Enabled, Answers;
  }
}

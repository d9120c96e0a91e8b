/** Password logins against one account: failure counting and temporary lockout, one login at a time
    and with logins that overlap between their database calls. */
module Lockout {
  import opened Wrappers

  const LOCK_MS: nat := 900_000

  /** The two columns the lockout uses. */
  datatype Account = Account(failed: nat, lockedUntil: Option<nat>)

  const CLEAR: Account := Account(0, None)

  predicate Locked(a: Account, now: nat) {
    a.lockedUntil.Some? && a.lockedUntil.value > now
  }

  /** The single write after a failed comparison; `read` is the counter as read just before. */
  function AfterMiss(a: Account, read: nat, now: nat): Account {
    Account(a.failed + 1, if read + 1 >= 5 then Some(now + LOCK_MS) else a.lockedUntil)
  }

  // ----- One login at a time -----

  /** `matches`: the password is right. `allowed`: the account's status, the school's sign-on policy and
      the second factor let the login through. */
  datatype Login = Login(now: nat, matches: bool, allowed: bool)

  datatype Verdict = AccountLocked | InvalidPassword | Denied | SignedIn

  function Judge(a: Account, l: Login): Verdict {
    if Locked(a, l.now) then AccountLocked
    else if !l.matches then InvalidPassword
    else if !l.allowed then Denied
    else SignedIn
  }

  function AfterLogin(a: Account, l: Login): Account {
    match Judge(a, l)
    case InvalidPassword => AfterMiss(a, a.failed, l.now)
    case SignedIn => CLEAR
    case _ => a
  }

  /** The user's row. */
  class UserRow {
    var failedLoginAttempts: nat
    var lockedUntil: Option<nat>

    function Value(): Account
      reads this
    {
      Account(failedLoginAttempts, lockedUntil)
    }

    constructor ()
      ensures Value() == CLEAR
    {
      failedLoginAttempts, lockedUntil := 0, None;
    }

    method IncrementFailedAttempts(now: nat)
      modifies this
      ensures Value() == AfterMiss(old(Value()), old(failedLoginAttempts), now)
    {
      var willExceedLimit := failedLoginAttempts + 1 >= 5;
      failedLoginAttempts := failedLoginAttempts + 1;
      if willExceedLimit {
        lockedUntil := Some(now + LOCK_MS);
      }
    }

    method Login(l: Login) returns (verdict: Verdict)
      modifies this
      ensures verdict == Judge(old(Value()), l)
      ensures Value() == AfterLogin(old(Value()), l)
      ensures verdict == AccountLocked <==> old(lockedUntil).Some? && l.now < old(lockedUntil).value
      ensures verdict == InvalidPassword <==> verdict != AccountLocked && !l.matches
      ensures verdict == SignedIn <==> verdict != AccountLocked && l.matches && l.allowed
      ensures verdict == InvalidPassword ==> failedLoginAttempts == old(failedLoginAttempts) + 1
      ensures verdict == InvalidPassword ==>
                lockedUntil == if old(failedLoginAttempts) >= 4 then Some(l.now + 900_000) else old(lockedUntil)
      ensures verdict == SignedIn ==> failedLoginAttempts == 0 && lockedUntil == None
      ensures verdict == AccountLocked || verdict == Denied ==>
                failedLoginAttempts == old(failedLoginAttempts) && lockedUntil == old(lockedUntil)
    {
      if lockedUntil.Some? && lockedUntil.value > l.now {
        return AccountLocked;
      }
      if !l.matches {
        IncrementFailedAttempts(l.now);
        return InvalidPassword;
      }
      if !l.allowed {
        return Denied;
      }
      failedLoginAttempts, lockedUntil := 0, None;
      return SignedIn;
    }
  }

  // ----- Logins that overlap -----

  datatype Stage = Comparing | Counting | Writing(read: nat)

  /** `misses` counts all failed comparisons so far. */
  datatype World = World(account: Account, flight: map<nat, Stage>, clock: nat, misses: nat)

  datatype Step = Start | WrongPassword | ReadCount | WriteCount | Deny | SignIn

  datatype Action = Action(id: nat, step: Step, now: nat)

  predicate Enabled(w: World, a: Action) {
    && a.now >= w.clock
    && if a.step.Start? then a.id !in w.flight
       else a.id in w.flight && match a.step
                                case ReadCount => w.flight[a.id].Counting?
                                case WriteCount => w.flight[a.id].Writing?
                                case _ => w.flight[a.id].Comparing?
  }

  function Apply(w: World, a: Action): World
    requires Enabled(w, a)
  {
    match a.step
    case Start => w.(clock := a.now,
                     flight := if Locked(w.account, a.now) then w.flight else w.flight[a.id := Comparing])
    case WrongPassword => w.(clock := a.now, flight := w.flight[a.id := Counting], misses := w.misses + 1)
    case ReadCount => w.(clock := a.now, flight := w.flight[a.id := Writing(w.account.failed)])
    case WriteCount => w.(clock := a.now, flight := w.flight - {a.id},
                          account := AfterMiss(w.account, w.flight[a.id].read, a.now))
    case Deny => w.(clock := a.now, flight := w.flight - {a.id})
    case SignIn => w.(clock := a.now, flight := w.flight - {a.id}, account := CLEAR)
  }

  predicate CanRun(w: World, acts: seq<Action>)
    decreases |acts|
  {
    acts == [] || (Enabled(w, acts[0]) && CanRun(Apply(w, acts[0]), acts[1..]))
  }

  function End(w: World, acts: seq<Action>): World
    requires CanRun(w, acts)
    decreases |acts|
  {
    if acts == [] then w else End(Apply(w, acts[0]), acts[1..])
  }

  /** Never more than `n` logins under way, in any state of the run. */
  ghost predicate AtMost(w: World, acts: seq<Action>, n: nat)
    requires CanRun(w, acts)
    decreases |acts|
  {
    |w.flight| <= n && (acts != [] ==> AtMost(Apply(w, acts[0]), acts[1..], n))
  }

  predicate NoSignIn(acts: seq<Action>) {
    forall i | 0 <= i < |acts| :: !acts[i].step.SignIn?
  }

  // ----- The bound -----

  predicate LowStage(s: Stage) {
    s.Writing? && s.read + 1 < 5
  }

  /** Logins about to write a count without locking. */
  ghost function Low(w: World): set<nat> {
    set id | id in w.flight && LowStage(w.flight[id])
  }

  /** Logins whose comparison failed and is not yet counted. */
  ghost function Pending(w: World): set<nat> {
    set id | id in w.flight && !w.flight[id].Comparing?
  }

  lemma Sizes(w: World)
    ensures |Low(w)| <= |w.flight| && |Pending(w)| <= |w.flight|
  {
    Subset(Low(w), w.flight.Keys);
    Subset(Pending(w), w.flight.Keys);
  }

  lemma {:induction false} Subset(a: set<nat>, b: set<nat>)
    requires a <= b
    ensures |a| <= |b|
  {
    assert b == a + (b - a);
  }

  lemma FlightSize(w: World, a: Action)
    requires Enabled(w, a)
    ensures var v := Apply(w, a);
            |v.flight| == match a.step
                          case Start => if Locked(w.account, a.now) then |w.flight| else |w.flight| + 1
                          case WriteCount => |w.flight| - 1
                          case Deny => |w.flight| - 1
                          case SignIn => |w.flight| - 1
                          case _ => |w.flight|
  {
    var v := Apply(w, a);
    assert |w.flight| == |w.flight.Keys| && |v.flight| == |v.flight.Keys|;
    var ids := w.flight.Keys;
    assert v.flight.Keys == ids || v.flight.Keys == ids + {a.id} || v.flight.Keys == ids - {a.id};
  }

  lemma LowSize(w: World, a: Action)
    requires Enabled(w, a)
    ensures var v := Apply(w, a);
            |Low(v)| == match a.step
                        case ReadCount => if w.account.failed + 1 < 5 then |Low(w)| + 1 else |Low(w)|
                        case WriteCount => if w.flight[a.id].read + 1 < 5 then |Low(w)| - 1 else |Low(w)|
                        case _ => |Low(w)|
  {
    LowSet(w, a);
    hide Low;
  }

  lemma LowSet(w: World, a: Action)
    requires Enabled(w, a)
    ensures var v := Apply(w, a);
            match a.step
            case ReadCount => a.id !in Low(w) && Low(v) == if w.account.failed + 1 < 5 then Low(w) + {a.id} else Low(w)
            case WriteCount => Low(v) == Low(w) - {a.id} && (a.id in Low(w) <==> w.flight[a.id].read + 1 < 5)
            case _ => Low(v) == Low(w)
  {
    hide LowStage, AfterMiss, Locked;
    var v := Apply(w, a);
    StageIsLow(w, a);
    forall id ensures id in Low(v) <==> id in v.flight && LowStage(v.flight[id]) {
    }
  }

  lemma StageIsLow(w: World, a: Action)
    requires Enabled(w, a)
    ensures !LowStage(Comparing) && !LowStage(Counting)
    ensures forall read :: LowStage(Writing(read)) <==> read + 1 < 5
    ensures !a.step.Start? && !a.step.WriteCount? ==> !LowStage(w.flight[a.id])
  {
  }

  lemma PendingSize(w: World, a: Action)
    requires Enabled(w, a)
    ensures var v := Apply(w, a);
            |Pending(v)| == match a.step
                            case WrongPassword => |Pending(w)| + 1
                            case WriteCount => |Pending(w)| - 1
                            case _ => |Pending(w)|
  {
    PendingSet(w, a);
    hide Pending;
  }

  lemma PendingSet(w: World, a: Action)
    requires Enabled(w, a)
    ensures var v := Apply(w, a);
            match a.step
            case WrongPassword => a.id !in Pending(w) && Pending(v) == Pending(w) + {a.id}
            case WriteCount => a.id in Pending(w) && Pending(v) == Pending(w) - {a.id}
            case _ => Pending(v) == Pending(w)
  {
    hide AfterMiss, Locked;
    var v := Apply(w, a);
    forall id ensures id in Pending(v) <==> id in v.flight && !v.flight[id].Comparing? {
    }
  }

  /** What `n` overlapping logins can miss until the end of the `k`-th further lock. */
  function Cap(n: nat, k: nat): (c: nat)
    ensures k == 0 ==> c == 3 + 2 * n
  {
    3 + 2 * n + n * k
  }

  lemma CapGrows(n: nat, k: nat)
    ensures Cap(n, k + 1) == Cap(n, k) + n
  {
  }

  lemma {:induction false} CapMonotone(n: nat, j: nat, k: nat)
    requires j <= k
    ensures Cap(n, j) <= Cap(n, k)
    decreases k - j
  {
    if j < k {
      CapGrows(n, j);
      CapMonotone(n, j + 1, k);
    }
  }

  ghost predicate ReadsPast(w: World) {
    forall id | id in w.flight && w.flight[id].Writing? :: w.flight[id].read <= w.account.failed
  }

  /** The counter and lock at one moment, `k` locks having run out since `start`. */
  ghost predicate Within(w: World, start: nat, n: nat, k: nat) {
    match w.account.lockedUntil
    case None => k == 0 && w.account.failed + |Low(w)| <= 3 + n
    case Some(until) =>
      && w.account.failed >= 4
      && start + LOCK_MS * (k + 1) <= until <= w.clock + LOCK_MS
      && w.account.failed + |Low(w)| <= Cap(n, k)
      && (w.clock < until ==> w.account.failed + |w.flight| <= Cap(n, k))
  }

  ghost predicate Counted(w: World, misses: nat) {
    w.misses <= misses + w.account.failed + |Pending(w)|
  }

  lemma StepWithin(w: World, a: Action, start: nat, n: nat, k: nat) returns (j: nat)
    requires Enabled(w, a) && !a.step.SignIn? && start <= w.clock
    requires ReadsPast(w) && Within(w, start, n, k)
    requires |w.flight| <= n && |Apply(w, a).flight| <= n
    ensures ReadsPast(Apply(w, a)) && Within(Apply(w, a), start, n, j)
  {
    FlightSize(w, a);
    LowSize(w, a);
    Sizes(w);
    Sizes(Apply(w, a));
    CapGrows(n, k);
    hide Low, Cap;
    j := if a.step.WriteCount? && !LowStage(w.flight[a.id]) && w.account.lockedUntil.Some?
            && a.now >= w.account.lockedUntil.value
         then k + 1 else k;
  }

  lemma StepCounted(w: World, a: Action, misses: nat)
    requires Enabled(w, a) && !a.step.SignIn? && Counted(w, misses)
    ensures Counted(Apply(w, a), misses)
  {
    PendingSize(w, a);
    hide Pending;
  }

  lemma {:induction false} RunWithin(w: World, acts: seq<Action>, start: nat, n: nat, k: nat, misses: nat)
    returns (j: nat)
    requires CanRun(w, acts) && NoSignIn(acts) && AtMost(w, acts, n) && start <= w.clock
    requires ReadsPast(w) && Within(w, start, n, k) && Counted(w, misses)
    ensures Within(End(w, acts), start, n, j) && Counted(End(w, acts), misses)
    ensures |End(w, acts).flight| <= n
    decreases |acts|
  {
    hide Within, Counted, ReadsPast;
    if acts == [] {
      j := k;
    } else {
      var v := Apply(w, acts[0]);
      var i := StepWithin(w, acts[0], start, n, k);
      StepCounted(w, acts[0], misses);
      j := RunWithin(v, acts[1..], start, n, i, misses);
    }
  }

  /** A cleared counter; whatever logins are under way have read a zero count. */
  ghost predicate Cleared(w: World) {
    w.account == CLEAR && ReadsPast(w)
  }

  function Elapsed(t: nat): (k: nat)
    ensures LOCK_MS * k <= t < LOCK_MS * (k + 1)
  {
    t / LOCK_MS
  }

  /** Starting from a cleared counter, with at most `n` logins overlapping at any time and no successful
      one, at most 3 + 2n + n * floor(T / 900000) password comparisons fail in `T` milliseconds. */
  lemma MissesBounded(w: World, acts: seq<Action>, n: nat)
    requires Cleared(w) && CanRun(w, acts) && NoSignIn(acts) && AtMost(w, acts, n)
    ensures w.clock <= End(w, acts).clock
    ensures End(w, acts).misses - w.misses <= Cap(n, Elapsed(End(w, acts).clock - w.clock))
  {
    hide *;
    ClearedWithin(w, n);
    AtMostNow(w, acts, n);
    ClockForward(w, acts);
    var k := RunWithin(w, acts, w.clock, n, 0, w.misses);
    WithinCapped(End(w, acts), w.clock, n, k, w.misses);
  }

  lemma ClearedWithin(w: World, n: nat)
    requires Cleared(w)
    ensures ReadsPast(w) && Counted(w, w.misses) && (|w.flight| <= n ==> Within(w, w.clock, n, 0))
  {
    Sizes(w);
    hide Low, Pending, ReadsPast;
  }

  lemma AtMostNow(w: World, acts: seq<Action>, n: nat)
    requires CanRun(w, acts) && AtMost(w, acts, n)
    ensures |w.flight| <= n
  {
  }

  lemma WithinCapped(v: World, start: nat, n: nat, k: nat, misses: nat)
    requires Within(v, start, n, k) && Counted(v, misses) && |v.flight| <= n && start <= v.clock
    ensures v.misses - misses <= Cap(n, Elapsed(v.clock - start))
  {
    Sizes(v);
    hide Low, Pending, Cap, Elapsed;
    var t := Elapsed(v.clock - start);
    if v.account.lockedUntil.None? {
      CapMonotone(n, 0, t);
    } else if v.clock < v.account.lockedUntil.value {
      CapMonotone(n, k, t);
    } else {
      CapGrows(n, k);
      CapMonotone(n, k + 1, t);
    }
  }

  lemma {:induction false} ClockForward(w: World, acts: seq<Action>)
    requires CanRun(w, acts)
    ensures w.clock <= End(w, acts).clock
    decreases |acts|
  {
    if acts != [] { ClockForward(Apply(w, acts[0]), acts[1..]); }
  }

  /** However logins overlap, no count is lost: without a successful login the counter and the failures
      not yet written add up to the failed comparisons. */
  lemma {:induction false} NoCountLost(w: World, acts: seq<Action>)
    requires CanRun(w, acts) && NoSignIn(acts)
    ensures var v := End(w, acts);
            v.misses - w.misses == v.account.failed + |Pending(v)| - w.account.failed - |Pending(w)|
    decreases |acts|
  {
    if acts != [] {
      PendingSize(w, acts[0]);
      hide Pending;
      NoCountLost(Apply(w, acts[0]), acts[1..]);
    }
  }

  // ----- The serial case -----

  function AfterAll(a: Account, logins: seq<Login>): Account
    decreases |logins|
  {
    if logins == [] then a else AfterAll(AfterLogin(a, logins[0]), logins[1..])
  }

  /** How many passwords were compared and found wrong. */
  function Misses(a: Account, logins: seq<Login>): nat
    decreases |logins|
  {
    if logins == [] then 0
    else (if Judge(a, logins[0]).InvalidPassword? then 1 else 0) + Misses(AfterLogin(a, logins[0]), logins[1..])
  }

  predicate NoneSignedIn(a: Account, logins: seq<Login>)
    decreases |logins|
  {
    logins != [] ==>
      !Judge(a, logins[0]).SignedIn? && NoneSignedIn(AfterLogin(a, logins[0]), logins[1..])
  }

  predicate InOrder(now: nat, logins: seq<Login>)
    decreases |logins|
  {
    logins != [] ==> now <= logins[0].now && InOrder(logins[0].now, logins[1..])
  }

  function LastTime(now: nat, logins: seq<Login>): nat {
    if logins == [] then now else logins[|logins| - 1].now
  }

  function LoginSteps(a: Account, l: Login): seq<Action> {
    match Judge(a, l)
    case AccountLocked => [Action(0, Start, l.now)]
    case InvalidPassword =>
      [Action(0, Start, l.now), Action(0, WrongPassword, l.now), Action(0, ReadCount, l.now),
       Action(0, WriteCount, l.now)]
    case Denied => [Action(0, Start, l.now), Action(0, Deny, l.now)]
    case SignedIn => [Action(0, Start, l.now), Action(0, SignIn, l.now)]
  }

  /** A login that nothing overlaps is a run of the step system. */
  lemma LoginIsARun(w: World, l: Login)
    requires w.flight == map[] && w.clock <= l.now
    ensures CanRun(w, LoginSteps(w.account, l)) && AtMost(w, LoginSteps(w.account, l), 1)
    ensures NoSignIn(LoginSteps(w.account, l)) <==> !Judge(w.account, l).SignedIn?
    ensures End(w, LoginSteps(w.account, l))
         == World(AfterLogin(w.account, l), map[], l.now,
                  w.misses + if Judge(w.account, l).InvalidPassword? then 1 else 0)
  {
    var start := Action(0, Start, l.now);
    var w1 := Apply(w, start);
    var end := World(AfterLogin(w.account, l), map[], l.now,
                     w.misses + if Judge(w.account, l).InvalidPassword? then 1 else 0);
    match Judge(w.account, l)
    case AccountLocked =>
      Prepend(w, start, [], end);
    case InvalidPassword =>
      MissIsARun(w1, l.now);
      Prepend(w, start,
              [Action(0, WrongPassword, l.now), Action(0, ReadCount, l.now), Action(0, WriteCount, l.now)], end);
    case Denied =>
      Prepend(w1, Action(0, Deny, l.now), [], end);
      Prepend(w, start, [Action(0, Deny, l.now)], end);
    case SignedIn =>
      Prepend(w1, Action(0, SignIn, l.now), [], end);
      Prepend(w, start, [Action(0, SignIn, l.now)], end);
  }

  lemma MissIsARun(w: World, now: nat)
    requires w.flight == map[0 := Comparing] && w.clock <= now
    ensures var acts := [Action(0, WrongPassword, now), Action(0, ReadCount, now), Action(0, WriteCount, now)];
            && CanRun(w, acts) && AtMost(w, acts, 1)
            && End(w, acts) == World(AfterMiss(w.account, w.account.failed, now), map[], now, w.misses + 1)
  {
    var wrong, read, write := Action(0, WrongPassword, now), Action(0, ReadCount, now), Action(0, WriteCount, now);
    var w1 := Apply(w, wrong);
    var w2 := Apply(w1, read);
    var end := Apply(w2, write);
    assert w1.flight == map[0 := Counting] && w2.flight == map[0 := Writing(w.account.failed)] && end.flight == map[];
    Prepend(w2, write, [], end);
    Prepend(w1, read, [write], end);
    Prepend(w, wrong, [read, write], end);
  }

  lemma Prepend(w: World, a: Action, acts: seq<Action>, end: World)
    requires Enabled(w, a) && |w.flight| <= 1
    requires acts == [] ==> Apply(w, a) == end && end.flight == map[]
    requires acts != [] ==> CanRun(Apply(w, a), acts) && AtMost(Apply(w, a), acts, 1) && End(Apply(w, a), acts) == end
    ensures CanRun(w, [a] + acts) && AtMost(w, [a] + acts, 1) && End(w, [a] + acts) == end
  {
    assert ([a] + acts)[1..] == acts;
    hide Apply, Enabled;
  }

  lemma {:induction false} RunsJoin(w: World, first: seq<Action>, then_: seq<Action>, n: nat)
    requires CanRun(w, first) && CanRun(End(w, first), then_)
    requires AtMost(w, first, n) && AtMost(End(w, first), then_, n)
    ensures CanRun(w, first + then_) && End(w, first + then_) == End(End(w, first), then_)
    ensures AtMost(w, first + then_, n)
    decreases |first|
  {
    if first == [] {
      assert first + then_ == then_;
    } else {
      assert (first + then_)[1..] == first[1..] + then_;
      RunsJoin(Apply(w, first[0]), first[1..], then_, n);
    }
  }

  lemma {:induction false} LoginsAreARun(w: World, logins: seq<Login>) returns (acts: seq<Action>)
    requires w.flight == map[] && InOrder(w.clock, logins) && NoneSignedIn(w.account, logins)
    ensures CanRun(w, acts) && AtMost(w, acts, 1) && NoSignIn(acts)
    ensures End(w, acts) == World(AfterAll(w.account, logins), map[], LastTime(w.clock, logins),
                                  w.misses + Misses(w.account, logins))
    decreases |logins|
  {
    if logins == [] {
      acts := [];
    } else {
      LoginIsARun(w, logins[0]);
      hide LoginSteps, Judge;
      var first := LoginSteps(w.account, logins[0]);
      var rest := LoginsAreARun(End(w, first), logins[1..]);
      RunsJoin(w, first, rest, 1);
      acts := first + rest;
    }
  }

  /** With logins handled one at a time, a cleared account sees at most 5 + floor(T / 900000) failed
      comparisons in `T` milliseconds without a successful login. */
  lemma SerialBound(now: nat, logins: seq<Login>)
    requires InOrder(now, logins) && NoneSignedIn(CLEAR, logins)
    ensures LastTime(now, logins) >= now
    ensures Misses(CLEAR, logins) <= 5 + (LastTime(now, logins) - now) / 900_000
  {
    var w := World(CLEAR, map[], now, 0);
    var acts := LoginsAreARun(w, logins);
    ClockForward(w, acts);
    MissesBounded(w, acts, 1);
  }

  function WrongAt(now: nat): Login {
    Login(now, false, false)
  }

  lemma {:induction false} OneMissEachLock(a: Account, now: nat, k: nat) returns (logins: seq<Login>)
    requires a.failed >= 4 && a.lockedUntil == Some(now)
    ensures InOrder(now, logins) && NoneSignedIn(a, logins) && Misses(a, logins) == k == |logins|
    ensures k > 0 ==> LastTime(now, logins) == now + LOCK_MS * (k - 1)
    decreases k
  {
    if k == 0 {
      logins := [];
    } else {
      var next := AfterLogin(a, WrongAt(now));
      var rest := OneMissEachLock(next, now + LOCK_MS, k - 1);
      logins := [WrongAt(now)] + rest;
      assert logins[1..] == rest;
      InOrderEarlier(now, now + LOCK_MS, rest);
    }
  }

  lemma InOrderEarlier(now: nat, later: nat, logins: seq<Login>)
    requires now <= later && InOrder(later, logins)
    ensures InOrder(now, logins)
  {
  }

  /** The bound is attained: five misses at once, then one at the end of each lock. */
  lemma BoundAttained(k: nat) returns (logins: seq<Login>)
    ensures InOrder(0, logins) && NoneSignedIn(CLEAR, logins) && LastTime(0, logins) == 900_000 * k
    ensures Misses(CLEAR, logins) == 5 + k
  {
    var rest := OneMissEachLock(Account(5, Some(LOCK_MS)), LOCK_MS, k);
    InOrderEarlier(0, LOCK_MS, rest);
    logins := rest;
    var n, before := 5, Account(5, Some(LOCK_MS));
    while n > 0
      invariant 0 <= n <= 5 && before == Account(n, if n == 5 then Some(LOCK_MS) else None)
      invariant InOrder(0, logins) && NoneSignedIn(before, logins) && |logins| == 5 - n + k
      invariant Misses(before, logins) == 5 - n + k
      invariant LastTime(0, logins) == LOCK_MS * k
    {
      n := n - 1;
      before := Account(n, None);
      ghost var earlier := logins;
      logins := [WrongAt(0)] + logins;
      assert logins[1..] == earlier;
    }
  }

  // ----- Overlapping logins attain their bound -----

  /** The logins from `lo` up to `hi`, all about to write the count they have read. */
  function Pool(lo: nat, hi: nat, read: nat): map<nat, Stage> {
    map id | id in Ids(lo, hi) :: Writing(read)
  }

  function Ids(lo: nat, hi: nat): (ids: set<nat>)
    ensures forall id: nat :: id in ids <==> lo <= id < hi
    decreases hi - lo
  {
    if lo >= hi then {} else {lo} + Ids(lo + 1, hi)
  }

  lemma {:induction false} PoolSize(lo: nat, hi: nat, read: nat)
    requires lo <= hi
    ensures |Pool(lo, hi, read)| == hi - lo
    decreases hi - lo
  {
    if lo == hi {
      assert Pool(lo, hi, read) == map[];
    } else {
      PoolSize(lo + 1, hi, read);
      assert Pool(lo, hi, read) == Pool(lo + 1, hi, read)[lo := Writing(read)];
      assert lo !in Pool(lo + 1, hi, read);
    }
  }

  /** A run made of one step and a run. */
  lemma Before(w: World, a: Action, rest: seq<Action>, n: nat)
    requires Enabled(w, a) && !a.step.SignIn? && |w.flight| <= n
    requires CanRun(Apply(w, a), rest) && NoSignIn(rest) && AtMost(Apply(w, a), rest, n)
    ensures CanRun(w, [a] + rest) && NoSignIn([a] + rest) && AtMost(w, [a] + rest, n)
    ensures End(w, [a] + rest) == End(Apply(w, a), rest)
  {
    assert ([a] + rest)[1..] == rest;
    hide Apply, Enabled;
  }

  /** One more login compares a wrong password and reads the count. */
  lemma EntersPool(w: World, j: nat, n: nat, now: nat)
    requires w.flight == Pool(0, j, w.account.failed) && j < n && w.clock <= now && !Locked(w.account, now)
    ensures var u1 := Apply(w, Action(j, Start, now));
            && Enabled(w, Action(j, Start, now)) && |w.flight| <= n
            && Enabled(u1, Action(j, WrongPassword, now)) && |u1.flight| <= n
            && var u2 := Apply(u1, Action(j, WrongPassword, now));
               && Enabled(u2, Action(j, ReadCount, now)) && |u2.flight| <= n
               && Apply(u2, Action(j, ReadCount, now))
                  == World(w.account, Pool(0, j + 1, w.account.failed), now, w.misses + 1)
  {
    PoolSize(0, j, w.account.failed);
    var u1 := Apply(w, Action(j, Start, now));
    var u2 := Apply(u1, Action(j, WrongPassword, now));
    assert j !in w.flight;
    FlightSize(w, Action(j, Start, now));
    FlightSize(u1, Action(j, WrongPassword, now));
    assert Apply(u2, Action(j, ReadCount, now)).flight == Pool(0, j + 1, w.account.failed);
  }

  lemma {:induction false} EnterAll(w: World, j: nat, n: nat, m: nat, now: nat) returns (acts: seq<Action>)
    requires w.flight == Pool(0, j, w.account.failed) && j <= n <= m && w.clock <= now && !Locked(w.account, now)
    requires j == n ==> w.clock == now
    ensures CanRun(w, acts) && NoSignIn(acts) && AtMost(w, acts, m)
    ensures End(w, acts) == World(w.account, Pool(0, n, w.account.failed), now, w.misses + n - j)
    decreases n - j
  {
    PoolSize(0, j, w.account.failed);
    if j == n {
      acts := [];
    } else {
      EntersPool(w, j, m, now);
      var u1 := Apply(w, Action(j, Start, now));
      var u2 := Apply(u1, Action(j, WrongPassword, now));
      var u3 := Apply(u2, Action(j, ReadCount, now));
      hide Apply, Enabled, Pool;
      var rest := EnterAll(u3, j + 1, n, m, now);
      Before(u2, Action(j, ReadCount, now), rest, m);
      Before(u1, Action(j, WrongPassword, now), [Action(j, ReadCount, now)] + rest, m);
      Before(w, Action(j, Start, now), [Action(j, WrongPassword, now)] + ([Action(j, ReadCount, now)] + rest), m);
      acts := [Action(j, Start, now)] + ([Action(j, WrongPassword, now)] + ([Action(j, ReadCount, now)] + rest));
    }
  }

  /** The account after `k` counts are written by logins that all have read `read`. */
  function AfterMisses(a: Account, read: nat, now: nat, k: nat): Account {
    Account(a.failed + k, if k > 0 && read + 1 >= 5 then Some(now + LOCK_MS) else a.lockedUntil)
  }

  lemma {:induction false} WriteAll(w: World, j: nat, n: nat, m: nat, read: nat) returns (acts: seq<Action>)
    requires w.flight == Pool(j, n, read) && j <= n <= m
    ensures CanRun(w, acts) && NoSignIn(acts) && AtMost(w, acts, m)
    ensures End(w, acts) == World(AfterMisses(w.account, read, w.clock, n - j), map[], w.clock, w.misses)
    decreases n - j
  {
    PoolSize(j, n, read);
    if j == n {
      assert w.flight == map[];
      acts := [];
    } else {
      var write := Action(j, WriteCount, w.clock);
      var v := Apply(w, write);
      assert v.flight == Pool(j + 1, n, read);
      assert AfterMisses(v.account, read, w.clock, n - j - 1) == AfterMisses(w.account, read, w.clock, n - j);
      hide Apply, Pool, AfterMisses;
      var rest := WriteAll(v, j + 1, n, m, read);
      Before(w, write, rest, m);
      acts := [write] + rest;
    }
  }

  /** `n` logins at one moment all read the count before any of them writes it. */
  lemma Together(w: World, n: nat, m: nat, now: nat) returns (acts: seq<Action>)
    requires w.flight == map[] && 1 <= n <= m && w.clock <= now && !Locked(w.account, now)
    ensures CanRun(w, acts) && NoSignIn(acts) && AtMost(w, acts, m)
    ensures End(w, acts) == World(AfterMisses(w.account, w.account.failed, now, n), map[], now, w.misses + n)
  {
    assert w.flight == Pool(0, 0, w.account.failed);
    var enter := EnterAll(w, 0, n, m, now);
    var write := WriteAll(End(w, enter), 0, n, m, w.account.failed);
    hide Apply, Enabled, Pool, AfterMisses;
    RunsJoin(w, enter, write, m);
    NoSignInJoin(enter, write);
    acts := enter + write;
  }

  lemma NoSignInJoin(a: seq<Action>, b: seq<Action>)
    requires NoSignIn(a) && NoSignIn(b)
    ensures NoSignIn(a + b)
  {
  }

  /** After the first lock, `n` logins at the end of each lock. */
  lemma {:induction false} EachLock(w: World, n: nat, k: nat) returns (acts: seq<Action>)
    requires w.flight == map[] && n >= 1 && w.account.failed >= 4 && w.account.lockedUntil == Some(w.clock + LOCK_MS)
    ensures CanRun(w, acts) && NoSignIn(acts) && AtMost(w, acts, n)
    ensures End(w, acts).misses == w.misses + n * k && End(w, acts).clock == w.clock + LOCK_MS * k
    decreases k
  {
    if k == 0 {
      acts := [];
    } else {
      var now := w.clock + LOCK_MS;
      var first := Together(w, n, n, now);
      var v := End(w, first);
      var rest := EachLock(v, n, k - 1);
      hide Apply, Enabled;
      RunsJoin(w, first, rest, n);
      NoSignInJoin(first, rest);
      acts := first + rest;
      assert n * (k - 1) + n == n * k;
    }
  }

  /** Misses at one moment that lead from a cleared counter to the first lock. */
  lemma FirstLock(w: World, n: nat) returns (acts: seq<Action>)
    requires w.flight == map[] && w.account == CLEAR && n >= 1
    ensures CanRun(w, acts) && NoSignIn(acts) && AtMost(w, acts, n)
    ensures End(w, acts) == World(Account(3 + 2 * n, Some(w.clock + LOCK_MS)), map[], w.clock, w.misses + 3 + 2 * n)
  {
    var singles := ThreeSingles(w, n);
    var w3 := End(w, singles);
    var a4 := Together(w3, n, n, w.clock);
    var a5 := Together(End(w3, a4), n, n, w.clock);
    hide Apply, Enabled, CanRun, End, AtMost;
    RunsJoin(w3, a4, a5, n);
    NoSignInJoin(a4, a5);
    RunsJoin(w, singles, a4 + a5, n);
    NoSignInJoin(singles, a4 + a5);
    acts := singles + (a4 + a5);
  }

  /** Three misses one after the other, which never lock. */
  lemma ThreeSingles(w: World, n: nat) returns (acts: seq<Action>)
    requires w.flight == map[] && w.account == CLEAR && n >= 1
    ensures CanRun(w, acts) && NoSignIn(acts) && AtMost(w, acts, n)
    ensures End(w, acts) == World(Account(3, None), map[], w.clock, w.misses + 3)
  {
    var a1 := Together(w, 1, n, w.clock);
    var w1 := End(w, a1);
    var a2 := Together(w1, 1, n, w.clock);
    var a3 := Together(End(w1, a2), 1, n, w.clock);
    hide Apply, Enabled, CanRun, End, AtMost;
    RunsJoin(w1, a2, a3, n);
    NoSignInJoin(a2, a3);
    RunsJoin(w, a1, a2 + a3, n);
    NoSignInJoin(a1, a2 + a3);
    acts := a1 + (a2 + a3);
  }

  /** The bound on overlapping logins is attained for every `n` and every number of locks. */
  lemma OverlappingBoundAttained(n: nat, k: nat) returns (acts: seq<Action>)
    requires n >= 1
    ensures var w := World(CLEAR, map[], 0, 0);
            && CanRun(w, acts) && NoSignIn(acts) && AtMost(w, acts, n)
            && End(w, acts).clock == 900_000 * k && End(w, acts).misses == 3 + 2 * n + n * k
  {
    var w := World(CLEAR, map[], 0, 0);
    var first := FirstLock(w, n);
    var rest := EachLock(End(w, first), n, k);
    hide Apply, Enabled;
    RunsJoin(w, first, rest, n);
    NoSignInJoin(first, rest);
    acts := first + rest;
  }

  // ----- Requests that run in one transaction -----

  /** With `wrapped` requests every login runs in one transaction, and the exception that refuses it undoes
      what it has written. */
  function AfterRequest(wrapped: bool, a: Account, l: Login): Account {
    if wrapped && !Judge(a, l).SignedIn? then a else AfterLogin(a, l)
  }

  function RequestMisses(wrapped: bool, a: Account, logins: seq<Login>): nat
    decreases |logins|
  {
    if logins == [] then 0
    else
      (if Judge(a, logins[0]).InvalidPassword? then 1 else 0)
      + RequestMisses(wrapped, AfterRequest(wrapped, a, logins[0]), logins[1..])
  }

  predicate NoRequestSignsIn(wrapped: bool, a: Account, logins: seq<Login>)
    decreases |logins|
  {
    logins != [] ==>
      !Judge(a, logins[0]).SignedIn? && NoRequestSignsIn(wrapped, AfterRequest(wrapped, a, logins[0]), logins[1..])
  }

  lemma {:induction false} UnwrappedIsPlain(a: Account, logins: seq<Login>)
    ensures RequestMisses(false, a, logins) == Misses(a, logins)
    ensures NoRequestSignsIn(false, a, logins) <==> NoneSignedIn(a, logins)
    decreases |logins|
  {
    hide Judge;
    if logins != [] { UnwrappedIsPlain(AfterLogin(a, logins[0]), logins[1..]); }
  }

  function WrongTimes(k: nat): seq<Login> {
    seq(k, _ => WrongAt(0))
  }

  /** In wrapped requests no failure is ever counted: any number of comparisons can fail at one moment. */
  lemma {:induction false} WrappedNeverCounts(k: nat)
    ensures InOrder(0, WrongTimes(k)) && NoRequestSignsIn(true, CLEAR, WrongTimes(k))
    ensures RequestMisses(true, CLEAR, WrongTimes(k)) == k && LastTime(0, WrongTimes(k)) == 0
  {
    if k > 0 {
      WrappedNeverCounts(k - 1);
      assert WrongTimes(k)[1..] == WrongTimes(k - 1);
    }
  }

  ghost predicate BoundHolds(wrapped: bool, now: nat, logins: seq<Login>) {
    InOrder(now, logins) && NoRequestSignsIn(wrapped, CLEAR, logins) ==>
      && LastTime(now, logins) >= now
      && RequestMisses(wrapped, CLEAR, logins) <= 5 + (LastTime(now, logins) - now) / 900_000
  }

  /** The serial bound holds for all logins exactly if requests are not wrapped. */
  lemma BoundHoldsIff(wrapped: bool)
    ensures (forall now, logins :: BoundHolds(wrapped, now, logins)) <==> !wrapped
  {
    if wrapped {
      WrappedNeverCounts(6);
      assert !BoundHolds(true, 0, WrongTimes(6));
    } else {
      forall now, logins ensures BoundHolds(false, now, logins) {
        UnwrappedIsPlain(CLEAR, logins);
        if InOrder(now, logins) && NoneSignedIn(CLEAR, logins) { SerialBound(now, logins); }
      }
    }
  }
}

/** Multi-factor recovery codes under concurrent requests: challenges that read the stored list and
    later compare-and-swap it, and the enrolment, confirmation and disabling of the second factor. */
module RecoveryCodes {
  import opened Wrappers
  import opened Collections

  /** The keyed hash of a trimmed, upper-cased code. */
  type Hash = string

  const CODES_PER_ENROLMENT: nat := 10

  function Minus(codes: seq<Hash>, gone: set<Hash>): seq<Hash> {
    if codes == [] then []
    else (if codes[0] in gone then [] else [codes[0]]) + Minus(codes[1..], gone)
  }

  lemma {:induction false} MinusMembers(codes: seq<Hash>, gone: set<Hash>, h: Hash)
    ensures h in Minus(codes, gone) <==> h in codes && h !in gone
  {
    if codes != [] { MinusMembers(codes[1..], gone, h); }
  }

  lemma {:induction false} MinusTwice(codes: seq<Hash>, gone: set<Hash>, more: set<Hash>)
    ensures Minus(Minus(codes, gone), more) == Minus(codes, gone + more)
  {
    if codes != [] {
      MinusTwice(codes[1..], gone, more);
      var rest := Minus(codes[1..], gone);
      if codes[0] !in gone {
        assert ([codes[0]] + rest)[1..] == rest;
      } else {
        assert Minus(codes, gone) == rest;
      }
    }
  }

  lemma {:induction false} MinusNothing(codes: seq<Hash>, gone: set<Hash>)
    requires forall h | h in codes :: h !in gone
    ensures Minus(codes, gone) == codes
  {
    if codes != [] { MinusNothing(codes[1..], gone); }
  }

  lemma {:induction false} MinusLength(codes: seq<Hash>, gone: set<Hash>)
    requires Distinct(codes)
    ensures |Minus(codes, gone)| + |Members(codes) * gone| == |codes|
  {
    if codes != [] {
      MinusLength(codes[1..], gone);
      MembersApart(codes, gone);
      hide Members, Distinct;
    }
  }

  lemma MembersApart(codes: seq<Hash>, gone: set<Hash>)
    requires Distinct(codes) && codes != []
    ensures |Members(codes) * gone| == |Members(codes[1..]) * gone| + if codes[0] in gone then 1 else 0
  {
    assert Members(codes) == {codes[0]} + Members(codes[1..]);
    assert codes[0] !in Members(codes[1..]);
    var rest := Members(codes[1..]) * gone;
    assert Members(codes) * gone == if codes[0] in gone then {codes[0]} + rest else rest;
  }

  // ----- The stored row -----

  /** The second-factor columns of a user's row. */
  datatype Row = Row(enabled: bool, codes: Option<seq<Hash>>)

  const CLEARED: Row := Row(false, None)

  /** The swap matches while the row still holds the list the request has read. */
  predicate Consumes(row: Row, read: Option<seq<Hash>>, code: Hash) {
    read.Some? && code in read.value && row.codes == read
  }

  function Consumed(row: Row, code: Hash): Row
    requires row.codes.Some?
  {
    row.(codes := Some(Minus(row.codes.value, {code})))
  }

  function Confirmed(row: Row, codes: seq<Hash>): Row {
    if row.enabled then row else Row(true, Some(codes))
  }

  /** The row in the database, with the service's updates of it. */
  class UserRow {
    var twoFactorEnabled: bool
    var mfaRecoveryCodes: Option<seq<Hash>>

    function Value(): Row
      reads this
    {
      Row(twoFactorEnabled, mfaRecoveryCodes)
    }

    constructor ()
      ensures Value() == CLEARED
    {
      twoFactorEnabled, mfaRecoveryCodes := false, None;
    }

    /** The second half of a challenge: `read` is the list as it was when the request loaded the user. */
    method ConsumeRecoveryCode(read: Option<seq<Hash>>, hashed: Hash) returns (r: Result<(), string>)
      modifies this`mfaRecoveryCodes
      ensures r.Success? <==> Consumes(old(Value()), read, hashed)
      ensures Value() == if r.Success? then Consumed(old(Value()), hashed) else old(Value())
      ensures r.Failure? ==> r.error == if read.Some? && hashed in read.value
                                        then "Recovery code was already used"
                                        else "Invalid MFA or recovery code"
    {
      var hashes := if read.Some? then read.value else [];
      if hashed !in hashes {
        return Failure("Invalid MFA or recovery code");
      }
      if mfaRecoveryCodes != read {
        return Failure("Recovery code was already used");
      }
      mfaRecoveryCodes := Some(Minus(hashes, {hashed}));
      return Success(());
    }

    method ConfirmEnrolment(codes: seq<Hash>) returns (r: Result<(), string>)
      modifies this
      ensures r.Success? <==> !old(twoFactorEnabled)
      ensures r.Success? ==> twoFactorEnabled && mfaRecoveryCodes == Some(codes)
      ensures r.Failure? ==> Value() == old(Value())
      ensures Value() == Confirmed(old(Value()), codes)
    {
      if twoFactorEnabled {
        return Failure("MFA enrollment is already confirmed");
      }
      twoFactorEnabled, mfaRecoveryCodes := true, Some(codes);
      return Success(());
    }

    /** The unconditional write that both starts an enrolment and disables the second factor. */
    method Clear()
      modifies this
      ensures !twoFactorEnabled && mfaRecoveryCodes == None
      ensures Value() == CLEARED
    {
      twoFactorEnabled, mfaRecoveryCodes := false, None;
    }
  }

  // ----- Concurrent requests -----

  datatype Purpose = SignIn | SwitchOff

  /** What a request still has to do, with what it has read. */
  datatype Task =
    | Challenge(read: seq<Hash>, code: Hash, purpose: Purpose)
    | Enrolling
    | Confirming
    | Disabling

  /** `issued` is every hash ever stored, `current` the last list stored by a confirmation, and
      `accepted` the recovery codes that let a request through, in order. */
  datatype World = World(
    row: Row,
    tasks: map<nat, Task>,
    issued: set<Hash>,
    current: seq<Hash>,
    accepted: seq<Hash>
  )

  const INITIAL: World := World(CLEARED, map[], {}, [], [])

  datatype Action =
    | Present(id: nat, code: Hash, purpose: Purpose)
    | PresentAuthenticatorCode(id: nat)
    | Swap(id: nat)
    | Begin(id: nat)
    | BeginWrite(id: nat)
    | Confirm(id: nat)
    | ConfirmWrite(id: nat, list: seq<Hash>)
    | DisableWrite(id: nat)

  /** New codes are random: their hashes are distinct and none was issued before. */
  predicate Fresh(w: World, codes: seq<Hash>) {
    |codes| == CODES_PER_ENROLMENT && Distinct(codes) && forall h | h in codes :: h !in w.issued
  }

  predicate Enabled(w: World, a: Action) {
    match a
    case Present(id, _, _) => id !in w.tasks
    case PresentAuthenticatorCode(id) => id !in w.tasks
    case Begin(id) => id !in w.tasks
    case Confirm(id) => id !in w.tasks
    case Swap(id) => id in w.tasks && w.tasks[id].Challenge?
    case BeginWrite(id) => id in w.tasks && w.tasks[id].Enrolling?
    case ConfirmWrite(id, list) => id in w.tasks && w.tasks[id].Confirming? && Fresh(w, list)
    case DisableWrite(id) => id in w.tasks && w.tasks[id].Disabling?
  }

  /** The swap finds the list unchanged since the request read it. */
  predicate Wins(w: World, a: Action)
    requires Enabled(w, a)
  {
    a.Swap? && Consumes(w.row, Some(w.tasks[a.id].read), w.tasks[a.id].code)
  }

  function Apply(w: World, a: Action): World
    requires Enabled(w, a)
  {
    match a
    case Present(id, code, purpose) =>
      if w.row.codes.Some? && code in w.row.codes.value && (purpose.SignIn? ==> w.row.enabled)
      then w.(tasks := w.tasks[id := Challenge(w.row.codes.value, code, purpose)])
      else w
    case PresentAuthenticatorCode(id) => w.(tasks := w.tasks[id := Disabling])
    case Swap(id) =>
      var task := w.tasks[id];
      if !Wins(w, a) then w.(tasks := w.tasks - {id})
      else
        w.(row := Consumed(w.row, task.code),
           accepted := w.accepted + [task.code],
           tasks := if task.purpose.SwitchOff? then w.tasks[id := Disabling] else w.tasks - {id})
    case Begin(id) => if w.row.enabled then w else w.(tasks := w.tasks[id := Enrolling])
    case BeginWrite(id) => w.(row := CLEARED, tasks := w.tasks - {id})
    case Confirm(id) => if w.row.enabled then w else w.(tasks := w.tasks[id := Confirming])
    case ConfirmWrite(id, list) =>
      if w.row.enabled then w.(tasks := w.tasks - {id})
      else
        w.(row := Confirmed(w.row, list), tasks := w.tasks - {id},
           issued := w.issued + Members(list), current := list)
    case DisableWrite(id) => w.(row := CLEARED, tasks := w.tasks - {id})
  }

  predicate CanRun(w: World, acts: seq<Action>)
    decreases |acts|
  {
    acts == [] || (Enabled(w, acts[0]) && CanRun(Apply(w, acts[0]), acts[1..]))
  }

  function End(w: World, acts: seq<Action>): World
    requires CanRun(w, acts)
    decreases |acts|
  {
    if acts == [] then w else End(Apply(w, acts[0]), acts[1..])
  }

  // ----- What every step keeps -----

  ghost predicate Inv(w: World) {
    && Distinct(w.accepted)
    && Members(w.accepted) <= w.issued
    && Members(w.current) <= w.issued
    && (w.row.enabled <==> w.row.codes.Some?)
    && (w.row.codes.Some? ==> Stored(w))
    && forall id | id in w.tasks && w.tasks[id].Challenge? :: w.tasks[id].code in w.tasks[id].read
  }

  /** The stored list is the issued list, in its order, minus the accepted codes. */
  ghost predicate Stored(w: World)
    requires w.row.codes.Some?
  {
    && w.row.codes.value == Minus(w.current, Members(w.accepted))
    && |w.current| == CODES_PER_ENROLMENT && Distinct(w.current)
  }

  lemma SwapStep(w: World, id: nat)
    requires Inv(w) && Enabled(w, Swap(id))
    ensures Inv(Apply(w, Swap(id)))
  {
    var v := Apply(w, Swap(id));
    var task := w.tasks[id];
    if Wins(w, Swap(id)) {
      MinusMembers(w.current, Members(w.accepted), task.code);
      assert task.code in w.current && task.code !in Members(w.accepted);
      assert Members(v.accepted) == Members(w.accepted) + {task.code};
      MinusTwice(w.current, Members(w.accepted), {task.code});
    }
  }

  lemma ConfirmStep(w: World, id: nat, list: seq<Hash>)
    requires Inv(w) && Enabled(w, ConfirmWrite(id, list))
    ensures Inv(Apply(w, ConfirmWrite(id, list)))
  {
    MinusNothing(list, Members(w.accepted));
  }

  lemma StepInv(w: World, a: Action)
    requires Inv(w) && Enabled(w, a)
    ensures Inv(Apply(w, a))
  {
    match a
    case Swap(id) => SwapStep(w, id);
    case ConfirmWrite(id, list) => ConfirmStep(w, id, list);
    case _ =>
  }

  lemma {:induction false} RunInv(w: World, acts: seq<Action>)
    requires Inv(w) && CanRun(w, acts)
    ensures Inv(End(w, acts))
    decreases |acts|
  {
    if acts != [] {
      StepInv(w, acts[0]);
      RunInv(Apply(w, acts[0]), acts[1..]);
    }
  }

  lemma InitialInv()
    ensures Inv(INITIAL)
  {
  }

  // ----- What recovery codes promise, over every interleaving -----

  /** No code is accepted twice, whoever presents it and whatever else happens, across enrolments too. */
  lemma AcceptedAtMostOnce(acts: seq<Action>, i: nat, j: nat)
    requires CanRun(INITIAL, acts)
    requires i < |End(INITIAL, acts).accepted| && j < |End(INITIAL, acts).accepted|
    requires End(INITIAL, acts).accepted[i] == End(INITIAL, acts).accepted[j]
    ensures i == j && End(INITIAL, acts).accepted[i] in End(INITIAL, acts).issued
  {
    InitialInv();
    RunInv(INITIAL, acts);
    assert End(INITIAL, acts).accepted[i] in Members(End(INITIAL, acts).accepted);
  }

  /** While the second factor is on, the stored list is the issued list minus the accepted codes, and the
      two parts make up all ten. */
  lemma StoredIsIssuedMinusAccepted(acts: seq<Action>)
    requires CanRun(INITIAL, acts) && End(INITIAL, acts).row.enabled
    ensures var w := End(INITIAL, acts);
            && w.row.codes == Some(Minus(w.current, Members(w.accepted)))
            && |w.row.codes.value| + |Members(w.current) * Members(w.accepted)| == 10
  {
    InitialInv();
    RunInv(INITIAL, acts);
    var w := End(INITIAL, acts);
    MinusLength(w.current, Members(w.accepted));
  }

  /** The read and the swap act as one: a challenge is accepted exactly if the list is still the one it
      read, and then its code is in the current list and leaves it. */
  lemma SwapIsAtomic(w: World, id: nat)
    requires Inv(w) && Enabled(w, Swap(id))
    ensures var v, task := Apply(w, Swap(id)), w.tasks[id];
            && (v.accepted != w.accepted <==> w.row.codes == Some(task.read))
            && (v.accepted != w.accepted ==>
                  && v.accepted == w.accepted + [task.code]
                  && task.code in w.row.codes.value && task.code !in v.row.codes.value)
            && (v.accepted == w.accepted ==> v.row == w.row)
  {
    MinusMembers(w.tasks[id].read, {w.tasks[id].code}, w.tasks[id].code);
  }

  /** Confirming while the second factor is off turns it on and stores exactly the new list; while it is on,
      confirming changes nothing but the request itself. */
  lemma ConfirmStores(w: World, id: nat, list: seq<Hash>)
    requires Enabled(w, ConfirmWrite(id, list))
    ensures var v := Apply(w, ConfirmWrite(id, list));
            if !w.row.enabled then
              && v.row.enabled && v.row.codes == Some(list) && v.current == list
              && (forall h :: h in v.issued <==> h in w.issued || h in list)
              && v.accepted == w.accepted && v.tasks == w.tasks - {id}
            else v == w.(tasks := w.tasks - {id})
  {
  }

  /** Starting an enrolment and disabling both leave the second factor off and no list. */
  lemma ClearingSteps(w: World, a: Action)
    requires Enabled(w, a) && (a.BeginWrite? || a.DisableWrite?)
    ensures var v := Apply(w, a);
            && !v.row.enabled && v.row.codes == None
            && v.accepted == w.accepted && v.issued == w.issued && v.tasks == w.tasks - {a.id}
  {
  }

  /** Who may ask for what: enrolment and confirmation go on only while the second factor is off; a code is
      challenged only if the list holds it, and for a sign-in only while the second factor is on. */
  lemma RequestsGoOn(w: World, a: Action)
    requires Enabled(w, a) && (a.Begin? || a.Confirm? || a.Present? || a.PresentAuthenticatorCode?)
    ensures var v := Apply(w, a);
            && v.row == w.row && v.accepted == w.accepted && v.issued == w.issued
            && (a.Begin? ==> (a.id in v.tasks <==> !w.row.enabled))
            && (a.Begin? && a.id in v.tasks ==> v.tasks[a.id] == Enrolling)
            && (a.Confirm? ==> (a.id in v.tasks <==> !w.row.enabled))
            && (a.Confirm? && a.id in v.tasks ==> v.tasks[a.id] == Confirming)
            && (a.PresentAuthenticatorCode? ==> a.id in v.tasks && v.tasks[a.id] == Disabling)
            && (a.Present? ==>
                  (a.id in v.tasks <==>
                     w.row.codes.Some? && a.code in w.row.codes.value && (a.purpose == SwitchOff || w.row.enabled)))
            && (a.Present? && a.id in v.tasks ==> v.tasks[a.id] == Challenge(w.row.codes.value, a.code, a.purpose))
  {
  }

  /** A code that wins for switching off goes on to the write that disables; any other challenge is over. */
  lemma SwapGoesOn(w: World, id: nat)
    requires Enabled(w, Swap(id))
    ensures var v := Apply(w, Swap(id));
            && (id in v.tasks <==> Wins(w, Swap(id)) && w.tasks[id].purpose == SwitchOff)
            && (id in v.tasks ==> v.tasks[id] == Disabling)
            && v.tasks - {id} == w.tasks - {id}
  {
  }

  lemma OneStep(w: World, a: Action)
    requires Enabled(w, a)
    ensures CanRun(w, [a]) && End(w, [a]) == Apply(w, a)
  {
    assert [a][1..] == [];
  }

  /** A stored code works: a challenge that nothing disturbs is accepted and uses up that code alone. */
  lemma UndisturbedChallenge(w: World, id: nat, code: Hash)
    requires Inv(w) && w.row.enabled && code in w.row.codes.value && id !in w.tasks
    ensures var acts := [Present(id, code, SignIn), Swap(id)];
            && CanRun(w, acts)
            && var v := End(w, acts);
               && v.accepted == w.accepted + [code] && v.row.enabled && v.row.codes.Some? && v.tasks == w.tasks
               && (forall h :: h in v.row.codes.value <==> h in w.row.codes.value && h != code)
  {
    var present, swap := Present(id, code, SignIn), Swap(id);
    var u := Apply(w, present);
    var v := Apply(u, swap);
    assert v.tasks == w.tasks;
    forall h ensures h in v.row.codes.value <==> h in w.row.codes.value && h != code {
      MinusMembers(w.row.codes.value, {code}, h);
    }
    hide Enabled, Apply;
    OneStep(u, swap);
    assert [present, swap][1..] == [swap];
  }

  lemma {:induction false} RunsJoin(w: World, first: seq<Action>, rest: seq<Action>)
    requires CanRun(w, first) && CanRun(End(w, first), rest)
    ensures CanRun(w, first + rest) && End(w, first + rest) == End(End(w, first), rest)
    decreases |first|
  {
    if first == [] {
      assert first + rest == rest;
    } else {
      assert (first + rest)[1..] == first[1..] + rest;
      RunsJoin(Apply(w, first[0]), first[1..], rest);
    }
  }

  /** From a list with distinct codes each of them can be used, in order, until none is left. */
  lemma {:induction false} EachCodeOnce(w: World, left: seq<Hash>) returns (acts: seq<Action>)
    requires Inv(w) && w.row == Row(true, Some(left)) && w.tasks == map[] && Distinct(left)
    ensures CanRun(w, acts)
    ensures End(w, acts).accepted == w.accepted + left && End(w, acts).row == Row(true, Some([]))
    decreases |left|
  {
    hide *;
    NoSteps(w);
    if left == [] {
      acts := [];
    } else {
      var one := OneUse(w, left);
      var more := EachCodeOnce(End(w, one), left[1..]);
      RunsJoin(w, one, more);
      acts := one + more;
      assert [left[0]] + left[1..] == left;
    }
  }

  lemma NoSteps(w: World)
    ensures CanRun(w, []) && End(w, []) == w
  {
  }

  lemma OneUse(w: World, left: seq<Hash>) returns (acts: seq<Action>)
    requires Inv(w) && w.row == Row(true, Some(left)) && w.tasks == map[] && Distinct(left) && left != []
    ensures CanRun(w, acts) && Inv(End(w, acts)) && Distinct(left[1..])
    ensures End(w, acts).row == Row(true, Some(left[1..])) && End(w, acts).tasks == map[]
    ensures End(w, acts).accepted == w.accepted + [left[0]]
  {
    acts := [Present(0, left[0], SignIn), Swap(0)];
    UndisturbedChallenge(w, 0, left[0]);
    UsedFirst(w, left[0]);
    FirstGone(left);
    RunInv(w, acts);
    hide Apply, Enabled, CanRun, End, Inv, Minus;
  }

  lemma FirstGone(left: seq<Hash>)
    requires Distinct(left) && left != []
    ensures Minus(left, {left[0]}) == left[1..] && Distinct(left[1..])
  {
    MinusNothing(left[1..], {left[0]});
  }

  lemma UsedFirst(w: World, code: Hash)
    requires w.row.enabled && w.row.codes.Some? && code in w.row.codes.value && 0 !in w.tasks
    ensures var acts := [Present(0, code, SignIn), Swap(0)];
            CanRun(w, acts) && End(w, acts).row == w.row.(codes := Some(Minus(w.row.codes.value, {code})))
  {
    var u := Apply(w, Present(0, code, SignIn));
    OneStep(u, Swap(0));
    var acts := [Present(0, code, SignIn), Swap(0)];
    assert acts[1..] == [Swap(0)];
  }

  /** The whole life of an enrolment: it is begun and confirmed from nothing, and then each of its ten codes
      is accepted exactly once. */
  lemma TenCodesWork(list: seq<Hash>) returns (acts: seq<Action>)
    requires |list| == 10 && Distinct(list)
    ensures CanRun(INITIAL, acts)
    ensures End(INITIAL, acts).accepted == list && End(INITIAL, acts).row == Row(true, Some([]))
  {
    var begun := [Begin(0), BeginWrite(0), Confirm(0), ConfirmWrite(0, list)];
    Enrols(list);
    InitialInv();
    RunInv(INITIAL, begun);
    var w := End(INITIAL, begun);
    hide Apply, Enabled, CanRun, End, Inv;
    var used := EachCodeOnce(w, list);
    RunsJoin(INITIAL, begun, used);
    acts := begun + used;
    assert [] + list == list;
  }

  lemma Enrols(list: seq<Hash>)
    requires |list| == 10 && Distinct(list)
    ensures var acts := [Begin(0), BeginWrite(0), Confirm(0), ConfirmWrite(0, list)];
            && CanRun(INITIAL, acts)
            && var w := End(INITIAL, acts); w.row == Row(true, Some(list)) && w.tasks == map[] && w.accepted == []
  {
    var a := [Begin(0), BeginWrite(0), Confirm(0), ConfirmWrite(0, list)];
    var w1 := Apply(INITIAL, a[0]);
    var w2 := Apply(w1, a[1]);
    var w3 := Apply(w2, a[2]);
    var w4 := Apply(w3, a[3]);
    assert w2.tasks == map[] && w4.tasks == map[];
    OneStep(w3, a[3]);
    assert a[3..] == [a[3]] && a[2..][1..] == a[3..] && a[1..][1..] == a[2..];
    assert CanRun(w2, a[2..]) && End(w2, a[2..]) == w4;
    assert CanRun(w1, a[1..]) && End(w1, a[1..]) == w4;
  }

  /** Of two challenges that read the same list the second to swap is refused, even with a different
      code; that code stays stored. */
  lemma SecondSwapRefused(w: World, p: nat, q: nat)
    requires Inv(w) && p != q && Enabled(w, Swap(p)) && Enabled(w, Swap(q))
    requires w.tasks[p].read == w.tasks[q].read && Wins(w, Swap(p))
    ensures Enabled(Apply(w, Swap(p)), Swap(q))
    ensures var v := Apply(w, Swap(p));
            && Apply(v, Swap(q)).accepted == v.accepted
            && (w.tasks[q].code != w.tasks[p].code ==> w.tasks[q].code in Apply(v, Swap(q)).row.codes.value)
  {
    var read, code := w.tasks[p].read, w.tasks[p].code;
    MinusMembers(read, {code}, code);
    MinusMembers(read, {code}, w.tasks[q].code);
    assert code in read && code !in Minus(read, {code});
  }

  /** A list once left behind never comes back: a challenge that has missed its moment is refused for ever. */
  lemma {:induction false} StaleNeverWins(w: World, acts: seq<Action>, read: seq<Hash>, code: Hash)
    requires Inv(w) && CanRun(w, acts)
    requires code in read && code in w.issued && (w.row.codes.Some? ==> code !in w.row.codes.value)
    ensures End(w, acts).row.codes != Some(read)
    decreases |acts|
  {
    if acts != [] {
      var v := Apply(w, acts[0]);
      StepInv(w, acts[0]);
      if Wins(w, acts[0]) {
        MinusMembers(w.row.codes.value, {w.tasks[acts[0].id].code}, code);
      }
      StaleNeverWins(v, acts[1..], read, code);
    }
  }
}

/** The browser client's session refresh: a flag and a queue of waiting requests make overlapping
    401 answers share one refresh. */
module SessionRefresh {
  import opened Wrappers
  import opened Collections

  const AUTH_ENTRY_ENDPOINTS: seq<string> :=
    ["/auth/login", "/auth/forgot-password", "/auth/reset-password", "/sso/exchange"]

  const MAX_RETRIES: nat := 5

  // ----- When a refresh is attempted -----

  predicate Includes(s: string, part: string) {
    part <= s || (s != "" && Includes(s[1..], part))
  }

  lemma {:induction false} IncludesMeans(s: string, part: string)
    ensures Includes(s, part) <==> exists i :: 0 <= i <= |s| && part <= s[i..]
  {
    assert s[0..] == s;
    if !(part <= s) && s != "" {
      IncludesMeans(s[1..], part);
      if i :| 0 <= i <= |s| && part <= s[i..] {
        assert s[1..][i - 1..] == s[i..];
      }
      if Includes(s[1..], part) {
        var j :| 0 <= j <= |s[1..]| && part <= s[1..][j..];
        assert s[1..][j..] == s[j + 1..];
      }
    }
  }

  predicate EntryPoint(url: string) {
    exists endpoint :: endpoint in AUTH_ENTRY_ENDPOINTS && Includes(url, endpoint)
  }

  predicate ShouldAttemptSessionRefresh(status: Option<int>, url: Option<string>, alreadyRetried: bool,
                                        isAuthenticated: bool) {
    && status == Some(401) && !alreadyRetried && isAuthenticated
    && !EntryPoint(if url.Some? then url.value else "")
  }

  ghost predicate Occurs(part: string, s: string) {
    exists i :: 0 <= i <= |s| && part <= s[i..]
  }

  /** A refresh is tried exactly for a 401 on an established session that has not been retried yet and whose
      address names none of the four entry points, anywhere in it. */
  lemma AttemptIff(status: Option<int>, url: Option<string>, alreadyRetried: bool, isAuthenticated: bool)
    ensures ShouldAttemptSessionRefresh(status, url, alreadyRetried, isAuthenticated) <==>
              && status == Some(401) && !alreadyRetried && isAuthenticated
              && var address := if url.Some? then url.value else "";
                 && !Occurs("/auth/login", address) && !Occurs("/auth/forgot-password", address)
                 && !Occurs("/auth/reset-password", address) && !Occurs("/sso/exchange", address)
  {
    var address := if url.Some? then url.value else "";
    IncludesMeans(address, "/auth/login");
    IncludesMeans(address, "/auth/forgot-password");
    IncludesMeans(address, "/auth/reset-password");
    IncludesMeans(address, "/sso/exchange");
    EntryPoints(address);
    hide Includes, Occurs, EntryPoint;
  }

  lemma EntryPoints(address: string)
    ensures EntryPoint(address) <==>
              || Includes(address, "/auth/login") || Includes(address, "/auth/forgot-password")
              || Includes(address, "/auth/reset-password") || Includes(address, "/sso/exchange")
  {
    var all := ["/auth/login", "/auth/forgot-password", "/auth/reset-password", "/sso/exchange"];
    assert AUTH_ENTRY_ENDPOINTS == all;
    assert all[0] in all && all[1] in all && all[2] in all && all[3] in all;
    hide Includes;
  }

  // ----- The client's module state -----

  /** `Replay` sends a request again with a token, `Reject` fails a waiting one. */
  datatype Event = Replay(id: nat, token: string) | Reject(id: nat)

  /** An empty token stands for none. */
  datatype Client = Client(isRefreshing: bool, subscribers: seq<nat>, token: string, authenticated: bool,
                           log: seq<Event>)

  /** The answer to a refresh; an answer without a token holds the empty string. */
  datatype Reply = Tokens(token: string) | Unauthorized | Unreachable

  predicate Succeeds(reply: Reply) {
    reply.Tokens? && reply.token != ""
  }

  function Replays(ids: seq<nat>, token: string): seq<Event> {
    seq(|ids|, i requires 0 <= i < |ids| => Replay(ids[i], token))
  }

  function AfterUnauthorized(c: Client, id: nat): Client {
    if c.isRefreshing then c.(subscribers := c.subscribers + [id]) else c.(isRefreshing := true)
  }

  function AfterRefresh(c: Client, leader: nat, reply: Reply): Client {
    if Succeeds(reply) then
      c.(isRefreshing := false, subscribers := [], token := reply.token,
         log := c.log + Replays(c.subscribers, reply.token) + [Replay(leader, reply.token)])
    else if reply.Unauthorized? then
      c.(isRefreshing := false, subscribers := [], token := "", authenticated := false, log := c.log + [Reject(leader)])
    else
      c.(isRefreshing := false, subscribers := [], log := c.log + [Reject(leader)])
  }

  class ApiClient {
    var isRefreshing: bool
    var refreshSubscribers: seq<nat>
    var accessToken: string
    var isAuthenticated: bool
    var log: seq<Event>

    function Value(): Client
      reads this
    {
      Client(isRefreshing, refreshSubscribers, accessToken, isAuthenticated, log)
    }

    constructor (accessToken: string, isAuthenticated: bool)
      ensures Value() == Client(false, [], accessToken, isAuthenticated, [])
    {
      isRefreshing, refreshSubscribers, log := false, [], [];
      this.accessToken, this.isAuthenticated := accessToken, isAuthenticated;
    }

    method SubscribeTokenRefresh(id: nat)
      modifies this`refreshSubscribers
      ensures refreshSubscribers == old(refreshSubscribers) + [id]
    {
      refreshSubscribers := refreshSubscribers + [id];
    }

    /** What a waiting request does when called back: without a token it would fail. */
    method CallBack(id: nat, token: string)
      modifies this`log
      ensures log == old(log) + [if token == "" then Reject(id) else Replay(id, token)]
    {
      if token == "" {
        log := log + [Reject(id)];
      } else {
        log := log + [Replay(id, token)];
      }
    }

    method OnRefreshed(token: string)
      modifies this`log, this`refreshSubscribers
      ensures refreshSubscribers == []
      ensures token != "" ==> log == old(log) + Replays(old(refreshSubscribers), token)
    {
      var i := 0;
      while i < |refreshSubscribers|
        modifies this`log
        invariant i <= |refreshSubscribers|
        invariant token != "" ==> log == old(log) + Replays(refreshSubscribers[..i], token)
      {
        CallBack(refreshSubscribers[i], token);
        i := i + 1;
        assert Replays(refreshSubscribers[..i], token)
            == Replays(refreshSubscribers[..i - 1], token) + [Replay(refreshSubscribers[i - 1], token)];
      }
      assert refreshSubscribers[..i] == refreshSubscribers;
      refreshSubscribers := [];
    }

    method OnRefreshFailed()
      modifies this`refreshSubscribers
      ensures refreshSubscribers == []
    {
      refreshSubscribers := [];
    }

    /** An eligible 401: join the refresh under way, or start one. */
    method OnUnauthorized(id: nat) returns (leads: bool)
      modifies this
      ensures leads <==> !old(isRefreshing)
      ensures Value() == AfterUnauthorized(old(Value()), id)
    {
      if isRefreshing {
        SubscribeTokenRefresh(id);
        return false;
      }
      isRefreshing := true;
      return true;
    }

    /** Everything after the answer to the refresh arrives, up to and including the `finally`. */
    method OnRefreshReply(leader: nat, reply: Reply)
      modifies this
      ensures Value() == AfterRefresh(old(Value()), leader, reply)
    {
      if reply.Tokens? && reply.token != "" {
        accessToken := reply.token;
        OnRefreshed(reply.token);
        log := log + [Replay(leader, reply.token)];
      } else {
        OnRefreshFailed();
        if reply.Unauthorized? {
          accessToken, isAuthenticated := "", false;
        }
        log := log + [Reject(leader)];
      }
      isRefreshing := false;
    }
  }

  // ----- Requests that overlap -----

  datatype Phase = Flying(token: string) | Waiting | Leading | Settled(ok: bool)

  datatype Request = Request(url: string, isGet: bool, retried: bool, retryCount: nat, phase: Phase)

  /** `leads` lists the requests that started a refresh, in order. */
  datatype World = World(client: Client, requests: map<nat, Request>, leads: seq<nat>)

  datatype Action =
    | Send(id: nat, url: string, isGet: bool)
    | Answer(id: nat)
    | Refuse401(id: nat)
    | NetworkError(id: nat)
    | OtherError(id: nat)
    | RefreshReply(id: nat, reply: Reply)
    | Session(authenticated: bool, token: string)

  predicate InFlight(w: World, id: nat) {
    id in w.requests && w.requests[id].phase.Flying?
  }

  predicate Enabled(w: World, a: Action) {
    match a
    case Send(id, _, _) => id !in w.requests
    case RefreshReply(id, _) => id in w.requests && w.requests[id].phase.Leading?
    case Session(_, _) => true
    case _ => InFlight(w, a.id)
  }

  function WithPhase(requests: map<nat, Request>, id: nat, phase: Phase): map<nat, Request>
    requires id in requests
  {
    requests[id := requests[id].(phase := phase)]
  }

  predicate Eligible(w: World, id: nat)
    requires id in w.requests
  {
    ShouldAttemptSessionRefresh(Some(401), Some(w.requests[id].url), w.requests[id].retried, w.client.authenticated)
  }

  /** The requests after every waiting one and the leader are sent again. */
  function Resent(w: World, leader: nat, token: string): map<nat, Request> {
    map id | id in w.requests ::
      if id == leader || id in w.client.subscribers then w.requests[id].(phase := Flying(token)) else w.requests[id]
  }

  function Apply(w: World, a: Action): World
    requires Enabled(w, a)
  {
    match a
    case Send(id, url, isGet) =>
      w.(requests := w.requests[id := Request(url, isGet, false, 0, Flying(w.client.token))])
    case Answer(id) => w.(requests := WithPhase(w.requests, id, Settled(true)))
    case Refuse401(id) =>
      if !Eligible(w, id) then w.(requests := WithPhase(w.requests, id, Settled(false)))
      else if w.client.isRefreshing then
        w.(client := AfterUnauthorized(w.client, id), requests := WithPhase(w.requests, id, Waiting))
      else
        w.(client := AfterUnauthorized(w.client, id), leads := w.leads + [id],
           requests := w.requests[id := w.requests[id].(phase := Leading, retried := true)])
    case NetworkError(id) =>
      var r := w.requests[id];
      if r.isGet && r.retryCount < MAX_RETRIES then
        w.(requests := w.requests[id := r.(retryCount := r.retryCount + 1, phase := Flying(w.client.token))])
      else w.(requests := WithPhase(w.requests, id, Settled(false)))
    case OtherError(id) => w.(requests := WithPhase(w.requests, id, Settled(false)))
    case RefreshReply(id, reply) =>
      w.(client := AfterRefresh(w.client, id, reply),
         requests := if Succeeds(reply) then Resent(w, id, reply.token)
                     else WithPhase(w.requests, id, Settled(false)))
    case Session(authenticated, token) =>
      w.(client := w.client.(authenticated := authenticated, token := token))
  }

  predicate CanRun(w: World, acts: seq<Action>)
    decreases |acts|
  {
    acts == [] || (Enabled(w, acts[0]) && CanRun(Apply(w, acts[0]), acts[1..]))
  }

  function End(w: World, acts: seq<Action>): World
    requires CanRun(w, acts)
    decreases |acts|
  {
    if acts == [] then w else End(Apply(w, acts[0]), acts[1..])
  }

  predicate Initial(w: World) {
    w.requests == map[] && w.leads == [] && !w.client.isRefreshing && w.client.subscribers == [] && w.client.log == []
  }

  // ----- What every step keeps -----

  /** The requests whose refresh call is outstanding. */
  ghost function Leaders(w: World): set<nat> {
    set id | id in w.requests && w.requests[id].phase.Leading?
  }

  ghost predicate OneRefresh(w: World) {
    |Leaders(w)| == if w.client.isRefreshing then 1 else 0
  }

  predicate QueueInOrder(w: World) {
    && (!w.client.isRefreshing ==> w.client.subscribers == [])
    && Distinct(w.client.subscribers)
    && forall id | id in w.client.subscribers :: id in w.requests && w.requests[id].phase.Waiting?
  }

  predicate LeadsOnce(w: World) {
    && Distinct(w.leads)
    && forall id | id in w.leads :: id in w.requests && w.requests[id].retried
  }

  predicate RetriesBounded(w: World) {
    forall id | id in w.requests :: w.requests[id].retryCount <= MAX_RETRIES
  }

  ghost predicate Inv(w: World) {
    OneRefresh(w) && QueueInOrder(w) && LeadsOnce(w) && RetriesBounded(w)
  }

  lemma StepOneRefresh(w: World, a: Action)
    requires OneRefresh(w) && Enabled(w, a)
    ensures OneRefresh(Apply(w, a))
  {
    if a.RefreshReply? {
      ReplyEndsRefresh(w, a.id, a.reply);
      hide Apply, Enabled;
    } else {
      LeadersAfter(w, a);
      hide Leaders, Apply, Enabled;
    }
  }

  lemma LeadersAfter(w: World, a: Action)
    requires Enabled(w, a) && !a.RefreshReply?
    ensures var v := Apply(w, a);
            if a.Refuse401? && Eligible(w, a.id) && !w.client.isRefreshing then
              a.id !in Leaders(w) && Leaders(v) == Leaders(w) + {a.id} && v.client.isRefreshing
            else Leaders(v) == Leaders(w) && v.client.isRefreshing == w.client.isRefreshing
  {
    hide Eligible;
    var v := Apply(w, a);
    forall id ensures id in Leaders(v) <==> id in v.requests && v.requests[id].phase.Leading? {
    }
  }

  lemma ReplyEndsRefresh(w: World, id: nat, reply: Reply)
    requires OneRefresh(w) && Enabled(w, RefreshReply(id, reply))
    ensures var v := Apply(w, RefreshReply(id, reply)); Leaders(v) == {} && !v.client.isRefreshing
  {
    assert id in Leaders(w);
    OneMember(Leaders(w), id);
    var v := Apply(w, RefreshReply(id, reply));
    forall other | other in v.requests ensures !v.requests[other].phase.Leading? {
      assert other in w.requests && (other in Leaders(w) ==> other == id);
    }
  }

  lemma OneMember(s: set<nat>, x: nat)
    requires x in s && |s| <= 1
    ensures s == {x}
  {
    assert |s - {x}| == 0;
  }

  lemma StepQueue(w: World, a: Action)
    requires QueueInOrder(w) && Enabled(w, a)
    ensures QueueInOrder(Apply(w, a))
  {
    hide ShouldAttemptSessionRefresh;
  }

  lemma StepLeads(w: World, a: Action)
    requires LeadsOnce(w) && RetriesBounded(w) && Enabled(w, a)
    ensures LeadsOnce(Apply(w, a)) && RetriesBounded(Apply(w, a))
  {
    hide EntryPoint;
  }

  lemma StepInv(w: World, a: Action)
    requires Inv(w) && Enabled(w, a)
    ensures Inv(Apply(w, a))
  {
    StepOneRefresh(w, a);
    StepQueue(w, a);
    StepLeads(w, a);
    hide *;
    hide Inv;
    InvParts(Apply(w, a));
  }

  lemma InvParts(w: World)
    requires OneRefresh(w) && QueueInOrder(w) && LeadsOnce(w) && RetriesBounded(w)
    ensures Inv(w)
  {
  }

  /** However requests, answers and logins interleave, every step keeps the invariant. */
  lemma {:induction false} RunInv(w: World, acts: seq<Action>)
    requires Inv(w) && CanRun(w, acts)
    ensures Inv(End(w, acts))
    decreases |acts|
  {
    if acts != [] {
      StepInv(w, acts[0]);
      hide Inv;
      RunInv(Apply(w, acts[0]), acts[1..]);
    }
  }

  lemma InitialInv(w: World)
    requires Initial(w)
    ensures Inv(w)
  {
    assert Leaders(w) == {};
  }

  /** At most one refresh call is outstanding, and nothing waits while none is. */
  lemma OneRefreshAtATime(w: World, acts: seq<Action>)
    requires Initial(w) && CanRun(w, acts)
    ensures var v := End(w, acts);
            && |Leaders(v)| <= 1
            && (Leaders(v) == {} <==> !v.client.isRefreshing)
            && (!v.client.isRefreshing ==> v.client.subscribers == [])
  {
    InitialInv(w);
    RunInv(w, acts);
  }

  /** No request leads two refreshes, so there are never more refreshes than requests; and none is sent
      again more than five times for network errors. */
  lemma LeadsAtMostOnce(w: World, acts: seq<Action>)
    requires Initial(w) && CanRun(w, acts)
    ensures var v := End(w, acts);
            && Distinct(v.leads) && |v.leads| <= |v.requests|
            && forall id | id in v.requests :: v.requests[id].retryCount <= 5
  {
    InitialInv(w);
    RunInv(w, acts);
    var v := End(w, acts);
    DistinctFits(v.leads, v.requests.Keys);
  }

  // ----- How a refresh ends -----

  /** After a successful refresh the waiting requests and the leader are each sent again exactly once,
      the waiting ones first and in order, all with the new token; nothing else is sent. */
  lemma SuccessReplaysEachOnce(w: World, leader: nat, token: string, id: nat)
    requires Inv(w) && Enabled(w, RefreshReply(leader, Tokens(token))) && token != ""
    ensures var v := Apply(w, RefreshReply(leader, Tokens(token)));
            var sent := Replays(w.client.subscribers + [leader], token);
            && v.client.log == w.client.log + sent
            && multiset(sent)[Replay(id, token)] == (if id == leader || id in w.client.subscribers then 1 else 0)
            && (id == leader || id in w.client.subscribers ==> v.requests[id].phase == Flying(token))
            && v.client.subscribers == []
  {
    hide OneRefresh, LeadsOnce, RetriesBounded;
    assert leader !in w.client.subscribers;
    var ids := w.client.subscribers + [leader];
    assert Replays(ids, token) == Replays(w.client.subscribers, token) + [Replay(leader, token)];
    ReplaysCount(ids, token, id);
  }

  /** What becomes of a single request: it starts with the session's token; an answer or an error settles it; a
      network error sends a GET again, up to five times; a 401 makes it wait, lead or fail. */
  lemma RequestSteps(w: World, a: Action)
    requires Enabled(w, a) && !a.RefreshReply? && !a.Session?
    ensures var v := Apply(w, a);
            && v.requests.Keys == w.requests.Keys + {a.id}
            && (forall k | k in w.requests && k != a.id :: v.requests[k] == w.requests[k])
            && match a {
              case Send(id, url, isGet) => v.requests[id] == Request(url, isGet, false, 0, Flying(w.client.token))
              case Answer(id) => v.requests[id] == w.requests[id].(phase := Settled(true))
              case OtherError(id) => v.requests[id] == w.requests[id].(phase := Settled(false))
              case NetworkError(id) =>
                var r := w.requests[id];
                v.requests[id] ==
                  (if r.isGet && r.retryCount <= 4 then
                     r.(retryCount := r.retryCount + 1, phase := Flying(w.client.token))
                   else r.(phase := Settled(false)))
              case Refuse401(id) =>
                var r := w.requests[id];
                if !ShouldAttemptSessionRefresh(Some(401), Some(r.url), r.retried, w.client.authenticated) then
                  v.requests[id] == r.(phase := Settled(false)) && v.client == w.client && v.leads == w.leads
                else if w.client.isRefreshing then
                  && v.requests[id] == r.(phase := Waiting) && v.leads == w.leads
                  && v.client == w.client.(subscribers := w.client.subscribers + [id])
                else
                  && v.requests[id] == r.(phase := Leading, retried := true) && v.leads == w.leads + [id]
                  && v.client == w.client.(isRefreshing := true)
              case _ => true }
            && (!a.Refuse401? ==> v.client == w.client && v.leads == w.leads)
  {
    hide ShouldAttemptSessionRefresh;
  }

  /** Only a 401 answer to the refresh itself ends the session; a network failure or an answer without a token
      leaves session and token alone, and a success keeps the session with the new token. */
  lemma LogoutIff(w: World, leader: nat, reply: Reply)
    requires Enabled(w, RefreshReply(leader, reply))
    ensures var c := Apply(w, RefreshReply(leader, reply)).client;
            && (c.authenticated <==> w.client.authenticated && reply != Unauthorized)
            && c.token == (match reply
                           case Tokens(token) => if token != "" then token else w.client.token
                           case Unauthorized => ""
                           case Unreachable => w.client.token)
            && !c.isRefreshing && c.subscribers == []
            && (!(reply.Tokens? && reply.token != "") ==> c.log == w.client.log + [Reject(leader)])
  {
  }

  lemma {:induction false} ReplaysCount(ids: seq<nat>, token: string, id: nat)
    requires Distinct(ids)
    ensures multiset(Replays(ids, token))[Replay(id, token)] == if id in ids then 1 else 0
  {
    if ids != [] {
      ReplaysCount(ids[1..], token, id);
      assert Replays(ids, token) == [Replay(ids[0], token)] + Replays(ids[1..], token);
      assert ids == [ids[0]] + ids[1..];
      assert ids[0] !in ids[1..];
    }
  }

  /** Waiting requests that no refresh will call back. */
  ghost function Orphans(w: World): set<nat> {
    set id | id in w.requests && w.requests[id].phase.Waiting? && id !in w.client.subscribers
  }

  /** A refresh that fails while requests wait. */
  predicate Orphaning(w: World, a: Action) {
    a.RefreshReply? && !Succeeds(a.reply) && w.client.subscribers != []
  }

  /** A failed refresh settles its leader alone: all that wait become orphans. No other step makes one. */
  lemma FailureOrphansWaiters(w: World, a: Action)
    requires Inv(w) && Enabled(w, a)
    ensures Orphans(Apply(w, a)) == Orphans(w) + (if Orphaning(w, a) then set id | id in w.client.subscribers else {})
  {
    hide OneRefresh, LeadsOnce, RetriesBounded, ShouldAttemptSessionRefresh, Distinct;
    var v := Apply(w, a);
    var gained := if Orphaning(w, a) then set id | id in w.client.subscribers else {};
    forall id ensures id in Orphans(v) <==> id in Orphans(w) + gained {
    }
  }

  /** An orphan is never settled. */
  lemma {:induction false} OrphanForever(w: World, acts: seq<Action>, id: nat)
    requires Inv(w) && CanRun(w, acts) && id in Orphans(w)
    ensures id in Orphans(End(w, acts)) && !End(w, acts).requests[id].phase.Settled?
    decreases |acts|
  {
    if acts != [] {
      StepInv(w, acts[0]);
      FailureOrphansWaiters(w, acts[0]);
      OrphanForever(Apply(w, acts[0]), acts[1..], id);
    }
  }

  predicate SomeOrphaning(w: World, acts: seq<Action>)
    requires CanRun(w, acts)
    decreases |acts|
  {
    acts != [] && (Orphaning(w, acts[0]) || SomeOrphaning(Apply(w, acts[0]), acts[1..]))
  }

  /** Requests are left hanging exactly in the runs where some refresh failed while others waited. */
  lemma {:induction false} HangingIffFailedWhileWaiting(w: World, acts: seq<Action>)
    requires Inv(w) && CanRun(w, acts) && Orphans(w) == {}
    ensures Orphans(End(w, acts)) != {} <==> SomeOrphaning(w, acts)
    decreases |acts|
  {
    if acts != [] {
      var v := Apply(w, acts[0]);
      StepInv(w, acts[0]);
      FailureOrphansWaiters(w, acts[0]);
      if Orphaning(w, acts[0]) {
        var id := w.client.subscribers[0];
        assert id in Orphans(v);
        OrphanForever(v, acts[1..], id);
      } else {
        HangingIffFailedWhileWaiting(v, acts[1..]);
      }
    }
  }

  /** Only requests that led a refresh are rejected. */
  predicate RejectedLed(w: World) {
    && (forall j | 0 <= j < |w.client.log| && w.client.log[j].Reject? :: w.client.log[j].id in w.leads)
    && (forall id | id in w.requests && w.requests[id].phase.Leading? :: id in w.leads)
  }

  /** Whoever has led never waits again. */
  predicate LedNeverWaits(w: World) {
    forall id | id in w.leads :: id in w.requests && w.requests[id].retried && !w.requests[id].phase.Waiting?
  }

  predicate RejectsLeaders(w: World) {
    RejectedLed(w) && LedNeverWaits(w)
  }

  lemma RejectedStep(w: World, a: Action)
    requires RejectedLed(w) && Enabled(w, a)
    ensures RejectedLed(Apply(w, a))
  {
    hide ShouldAttemptSessionRefresh, AfterUnauthorized;
    if a.Refuse401? { UnauthorizedLog(w.client, a.id); }
  }

  lemma LedStep(w: World, a: Action)
    requires QueueInOrder(w) && LedNeverWaits(w) && Enabled(w, a)
    ensures LedNeverWaits(Apply(w, a))
  {
    hide ShouldAttemptSessionRefresh, AfterUnauthorized, AfterRefresh;
    EligibleIs(w, a);
  }

  lemma RejectsStep(w: World, a: Action)
    requires QueueInOrder(w) && RejectsLeaders(w) && Enabled(w, a)
    ensures RejectsLeaders(Apply(w, a))
  {
    RejectedStep(w, a);
    LedStep(w, a);
    hide RejectedLed, LedNeverWaits, Apply, Enabled, QueueInOrder;
  }

  lemma EligibleIs(w: World, a: Action)
    requires Enabled(w, a)
    ensures a.Refuse401? && Eligible(w, a.id) ==> !w.requests[a.id].retried
  {
    hide EntryPoint;
  }

  lemma UnauthorizedLog(c: Client, id: nat)
    ensures AfterUnauthorized(c, id).log == c.log
  {
  }

  lemma {:induction false} RejectsRun(w: World, acts: seq<Action>)
    requires QueueInOrder(w) && RejectsLeaders(w) && CanRun(w, acts)
    ensures RejectsLeaders(End(w, acts))
    decreases |acts|
  {
    if acts != [] {
      StepQueue(w, acts[0]);
      RejectsStep(w, acts[0]);
      hide QueueInOrder, RejectsLeaders;
      RejectsRun(Apply(w, acts[0]), acts[1..]);
    }
  }

  /** The branch that would fail a waiting request is never taken: in every run each rejected request is one
      that led a refresh, and whoever has led never waits again. */
  lemma WaitersNeverRejected(w: World, acts: seq<Action>, id: nat)
    requires Initial(w) && CanRun(w, acts)
    ensures var v := End(w, acts);
            && (Reject(id) in v.client.log ==> id in v.leads)
            && (id in v.leads ==> id in v.requests && !v.requests[id].phase.Waiting? && id !in v.client.subscribers)
  {
    InitialInv(w);
    RunInv(w, acts);
    RejectsRun(w, acts);
  }

  /** The step that rejects a request ends its own refresh; the request was not waiting. */
  lemma RejectEndsOwnRefresh(w: World, a: Action, id: nat)
    requires Inv(w) && Enabled(w, a) && Reject(id) !in w.client.log && Reject(id) in Apply(w, a).client.log
    ensures a.RefreshReply? && a.id == id && w.requests[id].phase.Leading? && id !in w.client.subscribers
  {
    hide ShouldAttemptSessionRefresh;
  }

  /** A hanging request, concretely: two requests get a 401, the refresh of the first times out, and the
      second still waits. */
  lemma HangingExample()
    ensures var client := Client(false, [], "old", true, []);
            var w := World(client, map[], []);
            var acts := [Send(0, "/students", true), Send(1, "/staff", true), Refuse401(0), Refuse401(1),
                         RefreshReply(0, Unreachable)];
            CanRun(w, acts) && Orphans(End(w, acts)) == {1} && !End(w, acts).client.isRefreshing
  {
    var w := World(Client(false, [], "old", true, []), map[], []);
    var a1, a2, a3, a4, a5 := Send(0, "/students", true), Send(1, "/staff", true), Refuse401(0), Refuse401(1),
                              RefreshReply(0, Unreachable);
    var w1 := Apply(w, a1);
    var w2 := Apply(w1, a2);
    NotEntryPoints();
    var w3 := Apply(w2, a3);
    var w4 := Apply(w3, a4);
    var w5 := Apply(w4, a5);
    assert w5.requests[1].phase.Waiting? && w5.requests[0].phase == Settled(false);
    assert Orphans(w5) == {1};
    assert [a5][1..] == [];
    assert CanRun(w4, [a5]) && End(w4, [a5]) == w5;
    assert [a4, a5][1..] == [a5];
    assert CanRun(w3, [a4, a5]) && End(w3, [a4, a5]) == w5;
    assert [a3, a4, a5][1..] == [a4, a5];
    assert CanRun(w2, [a3, a4, a5]) && End(w2, [a3, a4, a5]) == w5;
    assert [a2, a3, a4, a5][1..] == [a3, a4, a5];
    assert CanRun(w1, [a2, a3, a4, a5]) && End(w1, [a2, a3, a4, a5]) == w5;
    assert [a1, a2, a3, a4, a5][1..] == [a2, a3, a4, a5];
  }

  lemma NotEntryPoints()
    ensures !EntryPoint("/students") && !EntryPoint("/staff")
  {
    forall endpoint | endpoint in AUTH_ENTRY_ENDPOINTS
      ensures !Includes("/students", endpoint) && !Includes("/staff", endpoint)
    {
      assert |endpoint| >= 11;
      IncludesMeans("/students", endpoint);
      IncludesMeans("/staff", endpoint);
    }
  }
}

/** The incremental audit export: pages of committed events are written below a transaction fence
    while business transactions begin, commit out of order or abort, and a checkpoint is saved
    after each file. The exporter may crash between any two writes. */
module AuditExport {
  import opened Wrappers

  const PAGE_LIMIT: nat := 500

  /** A row of the event table. An id is compared as the number its uuid spells. */
  datatype Event = Event(tx: nat, id: nat)

  /** The saved checkpoint; an empty `afterId` lies below every id. */
  datatype Cursor = Cursor(nextTx: nat, afterId: Option<nat>)

  predicate Before(a: Event, b: Event) {
    a.tx < b.tx || (a.tx == b.tx && a.id < b.id)
  }

  /** The event still lies ahead of the cursor. */
  predicate Past(e: Event, c: Cursor) {
    e.tx > c.nextTx || (e.tx == c.nextTx && (c.afterId.None? || e.id > c.afterId.value))
  }

  /** No event of transaction `t` or a later one lies at or below the cursor. */
  predicate Clear(c: Cursor, t: nat) {
    c.nextTx < t || (c.nextTx == t && c.afterId.None?)
  }

  predicate CursorLe(c: Cursor, d: Cursor) {
    || c.nextTx < d.nextTx
    || (c.nextTx == d.nextTx && (c.afterId.None? || (d.afterId.Some? && c.afterId.value <= d.afterId.value)))
  }

  // ----- The page query -----

  predicate Ascending(s: seq<Event>) {
    forall i, j :: 0 <= i < j < |s| ==> Before(s[i], s[j])
  }

  predicate IsLeast(m: Event, s: set<Event>) {
    m in s && forall e | e in s :: e == m || Before(m, e)
  }

  lemma LeastExists(s: set<Event>)
    requires s != {}
    ensures exists m :: IsLeast(m, s)
  {
    var x :| x in s;
    if s == {x} {
      assert IsLeast(x, s);
    } else {
      LeastExists(s - {x});
      var m :| IsLeast(m, s - {x});
      var l := if Before(m, x) then m else x;
      forall e | e in s ensures e == l || Before(l, e) {
        if e != x { assert e in s - {x}; }
      }
      assert IsLeast(l, s);
    }
  }

  /** The rows of `s` in the order of the query. */
  function Sorted(s: set<Event>): (r: seq<Event>)
    ensures |r| == |s| && Ascending(r)
    ensures forall e :: e in r <==> e in s
  {
    if s == {} then []
    else
      LeastExists(s);
      var m :| IsLeast(m, s);
      [m] + Sorted(s - {m})
  }

  predicate Selected(e: Event, c: Cursor, fence: nat) {
    && c.nextTx <= e.tx < fence
    && (e.tx > c.nextTx || c.afterId.None? || e.id > c.afterId.value)
  }

  function Eligible(view: set<Event>, c: Cursor, fence: nat): set<Event> {
    set e | e in view && Selected(e, c, fence)
  }

  function Page(view: set<Event>, c: Cursor, fence: nat): seq<Event> {
    var rows := Sorted(Eligible(view, c, fence));
    if |rows| <= PAGE_LIMIT then rows else rows[..PAGE_LIMIT]
  }

  function Last(page: seq<Event>): Cursor
    requires page != []
  {
    Cursor(page[|page| - 1].tx, Some(page[|page| - 1].id))
  }

  function Flatten(files: seq<seq<Event>>): seq<Event> {
    if files == [] then [] else Flatten(files[..|files| - 1]) + files[|files| - 1]
  }

  /** A sorted listing is determined by its elements. */
  lemma {:induction false} SortedUnique(a: seq<Event>, b: seq<Event>)
    requires Ascending(a) && Ascending(b)
    requires forall e :: e in a <==> e in b
    ensures a == b
  {
    assert a != [] ==> a[0] in a;
    assert b != [] ==> b[0] in b;
    if a != [] && b != [] {
      assert a[0] == b[0];
      forall e ensures e in a[1..] <==> e in b[1..] {
        if e in a[1..] { assert e in b; }
        if e in b[1..] { assert e in a; }
      }
      SortedUnique(a[1..], b[1..]);
      assert a == [a[0]] + a[1..] && b == [b[0]] + b[1..];
    }
  }

  /** A page is the start of the sorted eligible rows, and is empty only when there are none. */
  lemma PageFacts(view: set<Event>, c: Cursor, fence: nat)
    ensures var p, all := Page(view, c, fence), Eligible(view, c, fence);
            && |p| <= PAGE_LIMIT && Ascending(p) && p <= Sorted(all)
            && (p == [] <==> all == {})
            && (forall e | e in p :: e in all && Past(e, c))
  {
    var rows := Sorted(Eligible(view, c, fence));
    var p := Page(view, c, fence);
    forall e | e in p ensures e in rows {
    }
  }

  /** Among the events visible to a run, a page holds exactly those between the checkpoint it was
      read at and the checkpoint saved after it. */
  lemma PageIsInterval(view: set<Event>, c: Cursor, fence: nat, e: Event)
    requires Page(view, c, fence) != []
    requires e in view && e.tx < fence
    ensures var p := Page(view, c, fence);
            e in p <==> Past(e, c) && !Past(e, Last(p))
  {
    var rows, p := Sorted(Eligible(view, c, fence)), Page(view, c, fence);
    PageFacts(view, c, fence);
    if Past(e, c) {
      assert e in Eligible(view, c, fence);
      InPrefix(rows, p, e);
    }
  }

  /** In an ascending listing, a nonempty prefix holds what does not come after its last row. */
  lemma InPrefix(rows: seq<Event>, p: seq<Event>, e: Event)
    requires Ascending(rows) && p <= rows && p != [] && e in rows
    ensures e in p <==> !Before(p[|p| - 1], e)
  {
    var i :| 0 <= i < |rows| && rows[i] == e;
    if i < |p| {
      assert e == p[i];
      if i < |p| - 1 { assert Before(rows[i], rows[|p| - 1]); }
    } else {
      assert Before(rows[|p| - 1], rows[i]);
      forall j | 0 <= j < |p| ensures p[j] != e { assert Before(rows[j], rows[i]); }
    }
  }

  /** Behind a prefix of an ascending listing come exactly the rows the prefix does not hold. */
  lemma BehindPrefix(rows: seq<Event>, p: seq<Event>, e: Event)
    requires Ascending(rows) && p <= rows
    ensures e in rows[|p|..] <==> e in rows && e !in p
  {
    if e in rows[|p|..] {
      var i :| |p| <= i < |rows| && rows[i] == e;
      forall j | 0 <= j < |p| ensures p[j] != e { assert Before(rows[j], rows[i]); }
    }
  }

  lemma SplitRows(rows: seq<Event>, p: seq<Event>, tail: seq<Event>)
    requires Ascending(rows) && Ascending(tail) && p <= rows
    requires forall e :: e in tail <==> e in rows && e !in p
    ensures rows == p + tail
  {
    var behind := rows[|p|..];
    forall e ensures e in behind <==> e in tail { BehindPrefix(rows, p, e); }
    SortedUnique(behind, tail);
  }

  /** Saving a page's last row as checkpoint leaves exactly the rows after that page eligible. */
  lemma AdvanceDropsPage(view: set<Event>, c: Cursor, fence: nat)
    requires Page(view, c, fence) != []
    ensures var p, rest := Page(view, c, fence), Eligible(view, Last(Page(view, c, fence)), fence);
            Sorted(Eligible(view, c, fence)) == p + Sorted(rest)
  {
    hide *;
    var p, all := Page(view, c, fence), Eligible(view, c, fence);
    var rest := Eligible(view, Last(p), fence);
    PageFacts(view, c, fence);
    forall e ensures e in rest <==> e in all && e !in p { RemainsIff(view, c, fence, e); }
    SplitRows(Sorted(all), p, Sorted(rest));
  }

  /** A row remains eligible after a page exactly if it was eligible and the page does not hold it. */
  lemma RemainsIff(view: set<Event>, c: Cursor, fence: nat, e: Event)
    requires Page(view, c, fence) != []
    ensures var p := Page(view, c, fence);
            e in Eligible(view, Last(p), fence) <==> e in Eligible(view, c, fence) && e !in p
  {
    hide Page;
    var p := Page(view, c, fence);
    PageFacts(view, c, fence);
    assert p[|p| - 1] in p;
    if e in view && e.tx < fence { PageIsInterval(view, c, fence, e); }
  }

  lemma AdvanceShrinks(view: set<Event>, c: Cursor, fence: nat)
    requires Page(view, c, fence) != []
    ensures |Eligible(view, Last(Page(view, c, fence)), fence)| + |Page(view, c, fence)| == |Eligible(view, c, fence)|
  {
    AdvanceDropsPage(view, c, fence);
  }

  /** A page is full: it holds all eligible rows, or 500 of them. */
  lemma PageIsFull(view: set<Event>, c: Cursor, fence: nat)
    ensures var rows := |Eligible(view, c, fence)|;
            |Page(view, c, fence)| == if rows < 500 then rows else 500
  {
  }

  /** What a run relies on: a page lists, in order, exactly the visible events below the fence between
      the checkpoint it was read at and its own last row. */
  ghost predicate IsPage(p: seq<Event>, view: set<Event>, c: Cursor, fence: nat) {
    && 1 <= |p| <= PAGE_LIMIT
    && Ascending(p)
    && (forall e | e in p :: e in view && Selected(e, c, fence))
    && (forall e | e in view && e.tx < fence :: e in p <==> Past(e, c) && !Past(e, Last(p)))
  }

  lemma PageIsPage(view: set<Event>, c: Cursor, fence: nat)
    requires Page(view, c, fence) != []
    ensures IsPage(Page(view, c, fence), view, c, fence)
  {
    PageFacts(view, c, fence);
    forall e | e in view && e.tx < fence
      ensures e in Page(view, c, fence) <==> Past(e, c) && !Past(e, Last(Page(view, c, fence)))
    {
      PageIsInterval(view, c, fence, e);
    }
  }

  lemma {:induction false} FlattenAppend(files: seq<seq<Event>>, more: seq<seq<Event>>)
    ensures Flatten(files + more) == Flatten(files) + Flatten(more)
  {
    if more == [] {
      assert files + more == files;
    } else {
      var n := |more| - 1;
      var all := files + more;
      assert all[..|all| - 1] == files + more[..n] && all[|all| - 1] == more[n];
      FlattenAppend(files, more[..n]);
      FlattenTurn(all);
      FlattenTurn(more);
      hide Flatten;
    }
  }

  lemma FlattenTurn(files: seq<seq<Event>>)
    requires files != []
    ensures Flatten(files) == Flatten(files[..|files| - 1]) + files[|files| - 1]
  {
  }

  // ----- The exporter as a step system beside the database -----

  datatype Phase =
    | Idle
    | Paging(fence: nat, view: set<Event>)
    | Written(fence: nat, view: set<Event>, page: seq<Event>)

  /** `crashes` and `repeated` only record the history: how often the exporter died, and the rows of
      files whose checkpoint was never saved. */
  datatype World = World(
    nextTx: nat, running: set<nat>, pending: set<Event>, committed: set<Event>,
    checkpoint: Cursor, files: seq<seq<Event>>, phase: Phase,
    crashes: nat, repeated: multiset<Event>)

  datatype Action =
    | Begin
    | Emit(e: Event)
    | Commit(tx: nat)
    | Abort(tx: nat)
    | Start(fence: nat)
    | Refuse(fence: nat)
    | WriteFile
    | SavePage
    | Finish
    | Crash

  const INITIAL: World :=
    World(1, {}, {}, {}, Cursor(0, None), [], Idle, 0, multiset{})

  /** The lower end of a snapshot: every transaction below it has finished. */
  predicate IsXmin(fence: nat, w: World) {
    && (fence in w.running || fence == w.nextTx)
    && fence <= w.nextTx
    && forall t | t in w.running :: fence <= t
  }

  predicate Enabled(w: World, a: Action) {
    match a
    case Begin => true
    case Emit(e) => e.tx in w.running && forall f | f in w.pending + w.committed :: f.id != e.id
    case Commit(tx) => tx in w.running
    case Abort(tx) => tx in w.running
    case Start(fence) => w.phase.Idle? && IsXmin(fence, w) && fence >= w.checkpoint.nextTx
    case Refuse(fence) => w.phase.Idle? && IsXmin(fence, w) && fence < w.checkpoint.nextTx
    case WriteFile => w.phase.Paging? && Page(w.phase.view, w.checkpoint, w.phase.fence) != []
    case SavePage => w.phase.Written? && w.phase.page != []
    case Finish => w.phase.Paging? && Page(w.phase.view, w.checkpoint, w.phase.fence) == []
    case Crash => !w.phase.Idle?
  }

  function OfTx(events: set<Event>, tx: nat): set<Event> {
    set e | e in events && e.tx == tx
  }

  function InFlight(w: World): multiset<Event> {
    if w.phase.Written? then multiset(w.phase.page) else multiset{}
  }

  function Apply(w: World, a: Action): World
    requires Enabled(w, a)
  {
    match a
    case Begin => w.(nextTx := w.nextTx + 1, running := w.running + {w.nextTx})
    case Emit(e) => w.(pending := w.pending + {e})
    case Commit(tx) =>
      w.(running := w.running - {tx},
         pending := w.pending - OfTx(w.pending, tx),
         committed := w.committed + OfTx(w.pending, tx))
    case Abort(tx) => w.(running := w.running - {tx}, pending := w.pending - OfTx(w.pending, tx))
    case Start(fence) => w.(phase := Paging(fence, w.committed))
    case Refuse(_) => w
    case WriteFile =>
      var page := Page(w.phase.view, w.checkpoint, w.phase.fence);
      w.(files := w.files + [page], phase := Written(w.phase.fence, w.phase.view, page))
    case SavePage => w.(checkpoint := Last(w.phase.page), phase := Paging(w.phase.fence, w.phase.view))
    case Finish => w.(checkpoint := Cursor(w.phase.fence, None), phase := Idle)
    case Crash => w.(phase := Idle, crashes := w.crashes + 1, repeated := w.repeated + InFlight(w))
  }

  predicate CanRun(w: World, acts: seq<Action>)
    decreases |acts|
  {
    acts == [] || (Enabled(w, acts[0]) && CanRun(Apply(w, acts[0]), acts[1..]))
  }

  function End(w: World, acts: seq<Action>): World
    requires CanRun(w, acts)
    decreases |acts|
  {
    if acts == [] then w else End(Apply(w, acts[0]), acts[1..])
  }

  // ----- The invariant -----

  /** Committed events at or below the saved checkpoint. */
  function Confirmed(w: World): set<Event> {
    set e | e in w.committed && !Past(e, w.checkpoint)
  }

  ghost predicate DatabaseOk(w: World) {
    && (forall t | t in w.running :: t < w.nextTx)
    && (forall e | e in w.pending :: e.tx in w.running)
    && (forall e | e in w.committed :: e.tx < w.nextTx && e.tx !in w.running)
  }

  ghost predicate CheckpointOk(w: World) {
    && Clear(w.checkpoint, w.nextTx)
    && (forall t | t in w.running :: Clear(w.checkpoint, t))
  }

  ghost predicate RunOk(w: World) {
    !w.phase.Idle? ==>
      && Clear(w.checkpoint, w.phase.fence)
      && w.phase.fence <= w.nextTx
      && (forall t | t in w.running :: w.phase.fence <= t)
      && w.phase.view <= w.committed
      && (forall e | e in w.committed && e.tx < w.phase.fence :: e in w.phase.view)
      && (w.phase.Written? ==> IsPage(w.phase.page, w.phase.view, w.checkpoint, w.phase.fence))
  }

  /** Conservation: what the files hold is what the checkpoint covers, plus the page whose checkpoint
      is not yet saved, plus the pages crashes left unsaved. */
  ghost predicate LedgerOk(w: World) {
    && multiset(Flatten(w.files)) == multiset(Confirmed(w)) + InFlight(w) + w.repeated
    && |w.repeated| <= PAGE_LIMIT * w.crashes
  }

  ghost predicate Inv(w: World) {
    DatabaseOk(w) && CheckpointOk(w) && RunOk(w) && LedgerOk(w)
  }

  lemma InitialInv()
    ensures Inv(INITIAL)
  {
    assert Confirmed(INITIAL) == {};
    assert Flatten(INITIAL.files) == [];
  }

  lemma DatabaseStep(w: World, a: Action)
    requires Inv(w) && Enabled(w, a)
    requires a.Begin? || a.Emit? || a.Commit? || a.Abort?
    ensures Inv(Apply(w, a))
  {
    var v := Apply(w, a);
    assert Confirmed(v) == Confirmed(w);
  }

  function AsSet(p: seq<Event>): set<Event> {
    set e | e in p
  }

  /** A listing in strictly ascending order has no repeated rows. */
  lemma {:induction false} AscendingAsSet(p: seq<Event>)
    requires Ascending(p)
    ensures multiset(p) == multiset(AsSet(p))
  {
    if p != [] {
      var q, last := p[..|p| - 1], p[|p| - 1];
      AscendingAsSet(q);
      assert p == q + [last];
      assert last !in q;
      assert AsSet(p) == AsSet(q) + {last};
    }
  }

  lemma WriteStep(w: World)
    requires Inv(w) && Enabled(w, WriteFile)
    ensures Inv(Apply(w, WriteFile))
  {
    var v := Apply(w, WriteFile);
    PageIsPage(w.phase.view, w.checkpoint, w.phase.fence);
    assert v.files[..|v.files| - 1] == w.files;
    assert Confirmed(v) == Confirmed(w);
  }

  /** Saving the last row of a page confirms exactly the rows of that page. */
  lemma SaveConfirmsPage(w: World)
    requires Inv(w) && Enabled(w, SavePage)
    ensures Confirmed(Apply(w, SavePage)) == Confirmed(w) + AsSet(w.phase.page)
    ensures Confirmed(w) !! AsSet(w.phase.page)
  {
    var v, p := Apply(w, SavePage), w.phase.page;
    assert p[|p| - 1] in p;
    forall e ensures e in Confirmed(v) <==> e in Confirmed(w) + AsSet(p) {
      assert e in w.committed && e.tx < w.phase.fence ==> e in w.phase.view;
    }
  }

  lemma SaveStep(w: World)
    requires Inv(w) && Enabled(w, SavePage)
    ensures Inv(Apply(w, SavePage))
  {
    var p := w.phase.page;
    SaveConfirmsPage(w);
    AscendingAsSet(p);
    assert p[|p| - 1] in p;
    assert multiset(Confirmed(w) + AsSet(p)) == multiset(Confirmed(w)) + multiset(AsSet(p));
  }

  lemma FinishStep(w: World)
    requires Inv(w) && Enabled(w, Finish)
    ensures Inv(Apply(w, Finish))
    ensures Confirmed(Apply(w, Finish)) == set e | e in w.committed && e.tx < w.phase.fence
  {
    var v := Apply(w, Finish);
    assert Eligible(w.phase.view, w.checkpoint, w.phase.fence) == {};
    forall e | e in w.committed
      ensures Past(e, v.checkpoint) <==> Past(e, w.checkpoint)
    {
      if e.tx < w.phase.fence {
        assert e !in Eligible(w.phase.view, w.checkpoint, w.phase.fence);
      }
    }
    assert Confirmed(v) == Confirmed(w);
  }

  lemma CrashStep(w: World)
    requires Inv(w) && Enabled(w, Crash)
    ensures Inv(Apply(w, Crash))
  {
    assert Confirmed(Apply(w, Crash)) == Confirmed(w);
  }

  /** Every action, by the database or by the exporter, keeps the invariant. */
  lemma StepInv(w: World, a: Action)
    requires Inv(w) && Enabled(w, a)
    ensures Inv(Apply(w, a))
  {
    match a
    case Start(_) => assert Confirmed(Apply(w, a)) == Confirmed(w);
    case Refuse(_) =>
    case WriteFile => WriteStep(w);
    case SavePage => SaveStep(w);
    case Finish => FinishStep(w);
    case Crash => CrashStep(w);
    case _ => DatabaseStep(w, a);
  }

  lemma {:induction false} RunInv(w: World, acts: seq<Action>)
    requires Inv(w) && CanRun(w, acts)
    ensures Inv(End(w, acts))
    decreases |acts|
  {
    if acts != [] {
      StepInv(w, acts[0]);
      RunInv(Apply(w, acts[0]), acts[1..]);
    }
  }

  // ----- What the export promises, over every run -----

  /** In every run, each committed event at or below the checkpoint is in some exported file. */
  lemma NothingMissed(acts: seq<Action>, e: Event)
    requires CanRun(INITIAL, acts)
    requires e in End(INITIAL, acts).committed && !Past(e, End(INITIAL, acts).checkpoint)
    ensures exists file :: file in End(INITIAL, acts).files && e in file
  {
    InitialInv();
    RunInv(INITIAL, acts);
    var w := End(INITIAL, acts);
    assert e in Confirmed(w);
    assert multiset(Flatten(w.files))[e] > 0;
    InSomeFile(w.files, e);
  }

  lemma {:induction false} InSomeFile(files: seq<seq<Event>>, e: Event)
    requires e in Flatten(files)
    ensures exists file :: file in files && e in file
  {
    var n := |files| - 1;
    if e in files[n] {
      assert files[n] in files;
    } else {
      InSomeFile(files[..n], e);
      var file :| file in files[..n] && e in file;
      assert file in files;
    }
  }

  /** Whatever runs next, no transaction can still commit an event at or below the checkpoint. */
  lemma {:induction false} NoLateArrival(w: World, acts: seq<Action>, e: Event)
    requires Inv(w) && CanRun(w, acts)
    requires e in End(w, acts).committed && !Past(e, w.checkpoint)
    ensures e in w.committed
  {
    NoLateArrivalBelow(w, w.checkpoint, acts, e);
  }

  lemma {:induction false} NoLateArrivalBelow(w: World, c: Cursor, acts: seq<Action>, e: Event)
    requires Inv(w) && CanRun(w, acts)
    requires Clear(c, w.nextTx) && forall t | t in w.running :: Clear(c, t)
    requires e in End(w, acts).committed && !Past(e, c)
    ensures e in w.committed
    decreases |acts|
  {
    if acts != [] {
      var v := Apply(w, acts[0]);
      StepInv(w, acts[0]);
      NoLateArrivalBelow(v, c, acts[1..], e);
      assert e in v.committed;
    }
  }

  /** The checkpoint only moves forward. */
  lemma {:induction false} CheckpointForward(w: World, acts: seq<Action>)
    requires Inv(w) && CanRun(w, acts)
    ensures CursorLe(w.checkpoint, End(w, acts).checkpoint)
    decreases |acts|
  {
    if acts != [] {
      var v := Apply(w, acts[0]);
      StepInv(w, acts[0]);
      if acts[0].SavePage? {
        SaveAdvances(w);
      }
      CheckpointForward(v, acts[1..]);
    }
  }

  /** A save moves the checkpoint strictly: the same page is never read twice without a crash. */
  lemma SaveAdvances(w: World)
    requires Inv(w) && Enabled(w, SavePage)
    ensures CursorLe(w.checkpoint, Apply(w, SavePage).checkpoint)
    ensures w.checkpoint != Apply(w, SavePage).checkpoint
  {
    assert w.phase.page[|w.phase.page| - 1] in w.phase.page;
  }

  /** The backwards-history guard never fires in a run without a database restore. */
  lemma GuardNeverFires(acts: seq<Action>, fence: nat)
    requires CanRun(INITIAL, acts)
    ensures !Enabled(End(INITIAL, acts), Refuse(fence))
  {
    InitialInv();
    RunInv(INITIAL, acts);
  }

  predicate NoCrash(acts: seq<Action>) {
    Crash !in acts
  }

  lemma {:induction false} CrashesCounted(w: World, acts: seq<Action>)
    requires CanRun(w, acts)
    ensures End(w, acts).crashes == w.crashes + multiset(acts)[Crash]
    decreases |acts|
  {
    if acts != [] {
      CrashesCounted(Apply(w, acts[0]), acts[1..]);
      assert acts == [acts[0]] + acts[1..];
    }
  }

  /** Without a crash, the files between two runs hold every event the checkpoint covers exactly once
      and nothing else. */
  lemma ExactlyOnce(acts: seq<Action>)
    requires CanRun(INITIAL, acts) && NoCrash(acts)
    requires End(INITIAL, acts).phase.Idle?
    ensures multiset(Flatten(End(INITIAL, acts).files)) == multiset(Confirmed(End(INITIAL, acts)))
  {
    InitialInv();
    RunInv(INITIAL, acts);
    CrashesCounted(INITIAL, acts);
    assert End(INITIAL, acts).repeated == multiset{};
  }

  /** Each crash repeats at most one page: beyond the covered events and a page in flight, the files
      hold at most 500 rows for each crash of the run. */
  lemma RepeatsBounded(acts: seq<Action>)
    requires CanRun(INITIAL, acts)
    ensures var w := End(INITIAL, acts);
            |Flatten(w.files)| <= |Confirmed(w)| + |InFlight(w)| + 500 * multiset(acts)[Crash]
  {
    InitialInv();
    RunInv(INITIAL, acts);
    CrashesCounted(INITIAL, acts);
    var w := End(INITIAL, acts);
    assert |multiset(Flatten(w.files))| == |Flatten(w.files)|;
    assert |multiset(Confirmed(w))| == |Confirmed(w)|;
  }

  // ----- The page loop itself -----

  /** The files a run writes, in order. */
  function Pages(view: set<Event>, c: Cursor, fence: nat): seq<seq<Event>>
    decreases |Eligible(view, c, fence)|
  {
    var p := Page(view, c, fence);
    if p == [] then [] else
      AdvanceShrinks(view, c, fence);
      [p] + Pages(view, Last(p), fence)
  }

  /** Together the files of a run list exactly the eligible events, in order; all files but the last have
      500 rows, and the last has 1 to 500. */
  lemma {:induction false} PagesComplete(view: set<Event>, c: Cursor, fence: nat)
    ensures Flatten(Pages(view, c, fence)) == Sorted(Eligible(view, c, fence))
    ensures var files := Pages(view, c, fence);
            && (forall k | 0 <= k < |files| - 1 :: |files[k]| == 500)
            && (files != [] ==> 1 <= |files[|files| - 1]| <= 500)
    decreases |Eligible(view, c, fence)|
  {
    hide Page, Eligible, Flatten, Pages, Sorted;
    var p := Page(view, c, fence);
    PagesTurn(view, c, fence);
    FlattenEnds(p);
    if p == [] {
      assert Sorted(Eligible(view, c, fence)) == [] by { assert |Sorted(Eligible(view, c, fence))| == 0; }
    } else {
      AdvanceDropsPage(view, c, fence);
      AdvanceShrinks(view, c, fence);
      PagesComplete(view, Last(p), fence);
      var rest := Pages(view, Last(p), fence);
      FlattenAppend([p], rest);
      FullFirst(view, c, fence);
    }
  }

  lemma FlattenEnds(p: seq<Event>)
    ensures Flatten([]) == [] && Flatten([p]) == p
  {
    assert [p][..0] == [];
  }

  /** A page that is not the last of its run is full. */
  lemma FullFirst(view: set<Event>, c: Cursor, fence: nat)
    requires Page(view, c, fence) != []
    ensures 1 <= |Page(view, c, fence)| <= 500
    ensures Pages(view, Last(Page(view, c, fence)), fence) != [] ==> |Page(view, c, fence)| == 500
  {
    hide Page, Eligible, Pages;
    PageIsFull(view, c, fence);
    AdvanceShrinks(view, c, fence);
    PagesTurn(view, Last(Page(view, c, fence)), fence);
    PageIsFull(view, Last(Page(view, c, fence)), fence);
  }

  /** A run writes as few files as the page size allows. */
  lemma {:induction false} PagesCount(view: set<Event>, c: Cursor, fence: nat)
    ensures |Pages(view, c, fence)| == (|Eligible(view, c, fence)| + 499) / 500
    decreases |Eligible(view, c, fence)|
  {
    hide Page, Eligible;
    PagesTurn(view, c, fence);
    PageIsFull(view, c, fence);
    var p := Page(view, c, fence);
    if p != [] {
      AdvanceShrinks(view, c, fence);
      PagesCount(view, Last(p), fence);
    }
  }

  lemma NextPage(files: seq<seq<Event>>, view: set<Event>, c: Cursor, fence: nat)
    ensures var p := Page(view, c, fence);
            if p == [] then
              files + Pages(view, c, fence) == files && Eligible(view, c, fence) == {}
            else
              && files + Pages(view, c, fence) == (files + [p]) + Pages(view, Last(p), fence)
              && |Eligible(view, Last(p), fence)| + |p| == |Eligible(view, c, fence)|
  {
    hide Page, Eligible, Pages;
    var p := Page(view, c, fence);
    PagesTurn(view, c, fence);
    if p != [] {
      AdvanceShrinks(view, c, fence);
      assert files + ([p] + Pages(view, Last(p), fence)) == (files + [p]) + Pages(view, Last(p), fence);
    } else {
      assert files + [] == files;
    }
  }

  lemma PagesTurn(view: set<Event>, c: Cursor, fence: nat)
    ensures var p := Page(view, c, fence);
            if p == [] then Pages(view, c, fence) == [] && Eligible(view, c, fence) == {}
            else Pages(view, c, fence) == [p] + Pages(view, Last(p), fence)
  {
    PageFacts(view, c, fence);
    hide Page, Eligible;
  }

  lemma Prepend(w: World, a: Action, acts: seq<Action>)
    requires Enabled(w, a) && CanRun(Apply(w, a), acts)
    ensures CanRun(w, [a] + acts) && End(w, [a] + acts) == End(Apply(w, a), acts)
  {
    assert ([a] + acts)[1..] == acts;
  }

  /** An undisturbed run is an execution of the step system, and it ends with the checkpoint at the
      fence and with exactly these files added. */
  lemma {:induction false} UndisturbedRun(w: World) returns (acts: seq<Action>)
    requires w.phase.Paging?
    ensures CanRun(w, acts) && NoCrash(acts)
    ensures var v := End(w, acts);
            && v.phase.Idle? && v.checkpoint == Cursor(w.phase.fence, None)
            && v.files == w.files + Pages(w.phase.view, w.checkpoint, w.phase.fence)
            && v.committed == w.committed
    decreases |Eligible(w.phase.view, w.checkpoint, w.phase.fence)|
  {
    NextPage(w.files, w.phase.view, w.checkpoint, w.phase.fence);
    if Page(w.phase.view, w.checkpoint, w.phase.fence) == [] {
      Prepend(w, Finish, []);
      acts := [Finish] + [];
    } else {
      var u := Apply(w, WriteFile);
      var v := Apply(u, SavePage);
      var rest := UndisturbedRun(v);
      Prepend(u, SavePage, rest);
      Prepend(w, WriteFile, [SavePage] + rest);
      acts := [WriteFile] + ([SavePage] + rest);
    }
  }

  /** From every reachable idle state the next run can finish, and then every event committed by a
      transaction that had ended is in some file. */
  lemma FinishedIsExported(before: seq<Action>, fence: nat) returns (acts: seq<Action>)
    requires CanRun(INITIAL, before)
    requires End(INITIAL, before).phase.Idle? && IsXmin(fence, End(INITIAL, before))
    ensures var w := End(INITIAL, before);
            && CanRun(w, acts) && NoCrash(acts)
            && End(w, acts).committed == w.committed
            && forall e | e in w.committed && e.tx < fence ::
                 exists file :: file in End(w, acts).files && e in file
  {
    var w := End(INITIAL, before);
    InitialInv();
    RunInv(INITIAL, before);
    var u := Apply(w, Start(fence));
    var rest := UndisturbedRun(u);
    Prepend(w, Start(fence), rest);
    acts := [Start(fence)] + rest;
    RunInv(w, acts);
    var v := End(w, acts);
    hide Apply, End, CanRun, DatabaseOk, CheckpointOk, RunOk;
    forall e | e in w.committed && e.tx < fence ensures exists file :: file in v.files && e in file {
      assert e in Confirmed(v);
      assert multiset(Flatten(v.files))[e] > 0;
      InSomeFile(v.files, e);
    }
  }

  /** Business transactions beside the exporter: what each step adds to pending and committed events, and that
      none touches checkpoint, files or the run under way. */
  lemma DatabaseSteps(w: World, a: Action, f: Event)
    requires Enabled(w, a) && (a.Begin? || a.Emit? || a.Commit? || a.Abort?)
    ensures var v := Apply(w, a);
            && v.checkpoint == w.checkpoint && v.files == w.files && v.phase == w.phase
            && (a.Begin? ==> v.running == w.running + {w.nextTx} && w.nextTx < v.nextTx)
            && (a.Commit? || a.Abort? ==> v.running == w.running - {a.tx})
            && (f in v.committed <==> f in w.committed || (a.Commit? && f in w.pending && f.tx == a.tx))
            && (f in v.pending <==>
                  || (a.Emit? && f == a.e)
                  || (f in w.pending && !((a.Commit? || a.Abort?) && f.tx == a.tx)))
  {
  }

  /** The exporter's durable state and its page loop. */
  class Exporter {
    var checkpoint: Cursor
    var files: seq<seq<Event>>

    constructor (checkpoint: Cursor)
      ensures this.checkpoint == checkpoint && files == []
    {
      this.checkpoint := checkpoint;
      files := [];
    }

    method Save(next: Cursor)
      modifies this`checkpoint
      ensures checkpoint == next
    {
      checkpoint := next;
    }

    /** One run over a repeatable-read snapshot. It refuses a fence below the checkpoint and
        otherwise always ends, with the checkpoint at the fence and every eligible event written. */
    method Run(view: set<Event>, fence: nat) returns (refused: bool, count: nat, written: nat)
      modifies this
      ensures refused <==> fence < old(checkpoint).nextTx
      ensures refused ==> checkpoint == old(checkpoint) && files == old(files) && count == written == 0
      ensures !refused ==> checkpoint == Cursor(fence, None)
      ensures !refused ==> files == old(files) + Pages(view, old(checkpoint), fence)
      ensures !refused ==> count == |Eligible(view, old(checkpoint), fence)|
      ensures written == |files| - |old(files)|
      ensures !refused ==> written == (|Eligible(view, old(checkpoint), fence)| + 499) / 500
    {
      PagesCount(view, checkpoint, fence);
      count, written := 0, 0;
      if fence < checkpoint.nextTx {
        return true, 0, 0;
      }
      refused := false;
      while true
        invariant files + Pages(view, checkpoint, fence) == old(files) + Pages(view, old(checkpoint), fence)
        invariant count + |Eligible(view, checkpoint, fence)| == |Eligible(view, old(checkpoint), fence)|
        invariant written == |files| - |old(files)|
        decreases |Eligible(view, checkpoint, fence)|
      {
        NextPage(files, view, checkpoint, fence);
        var rows := Page(view, checkpoint, fence);
        if |rows| == 0 {
          Save(Cursor(fence, None));
          break;
        }
        files := files + [rows];
        Save(Last(rows));
        count := count + |rows|;
        written := written + 1;
      }
    }
  }
}

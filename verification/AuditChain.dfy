/** The hash-chained activity log. Each record of a school carries the hash of the record that was
    the school's latest when it was written, and a hash over all its own fields. Records are written
    one at a time per school, under an advisory lock held to the end of the transaction. */
module AuditChain {
  import opened Wrappers
  import opened Text
  import opened CanonicalJson
  import opened JsonReader

  datatype Entry = Entry(
    schoolId: Option<string>, userId: string, action: string, mod: string, description: string,
    resourceId: Option<string>, resourceType: Option<string>, before: Option<Json>, after: Option<Json>)

  datatype Record = Record(
    id: string, entry: Entry, previousHash: Option<string>, integrityHash: string, createdAt: nat)

  /** The digest and the timestamp format, of which only injectivity is ever used. */
  datatype Env = Env(hash: string -> string, iso: nat -> string)

  ghost predicate CollisionFree(env: Env) {
    && (forall x, y :: env.hash(x) == env.hash(y) ==> x == y)
    && (forall s, t :: env.iso(s) == env.iso(t) ==> s == t)
  }

  function NullOr(s: Option<string>): Json {
    if s.Some? then JString(s.value) else JNull
  }

  /** An absent or null snapshot becomes the database null. */
  function ToJson(snapshot: Option<Json>): Json {
    if snapshot.None? || snapshot.value.JNull? then DbNull else snapshot.value
  }

  function Payload(env: Env, previousHash: Option<string>, e: Entry, createdAt: nat): Json {
    JObject([
      Field("previousHash", NullOr(previousHash)),
      Field("schoolId", NullOr(e.schoolId)),
      Field("userId", JString(e.userId)),
      Field("action", JString(e.action)),
      Field("module", JString(e.mod)),
      Field("resourceId", NullOr(e.resourceId)),
      Field("resourceType", NullOr(e.resourceType)),
      Field("description", JString(e.description)),
      Field("before", ToJson(e.before)),
      Field("after", ToJson(e.after)),
      Field("createdAt", JString(env.iso(createdAt)))])
  }

  function IntegrityHash(env: Env, previousHash: Option<string>, e: Entry, createdAt: nat): string {
    env.hash(Canonical(Payload(env, previousHash, e, createdAt)))
  }

  // ----- The latest record of a school -----

  /** `a` comes after `b` in the order of creation time, then id. */
  predicate Later(a: Record, b: Record) {
    a.createdAt > b.createdAt || (a.createdAt == b.createdAt && Less(b.id, a.id))
  }

  function OfSchool(school: Option<string>, records: seq<Record>): seq<Record> {
    if records == [] then []
    else
      var n := |records| - 1;
      OfSchool(school, records[..n]) + if records[n].entry.schoolId == school then [records[n]] else []
  }

  function Latest(records: seq<Record>): (r: Option<Record>)
    ensures r.None? <==> records == []
    ensures r.Some? ==> r.value in records
  {
    if records == [] then None
    else
      var n := |records| - 1;
      var best := Latest(records[..n]);
      if best.Some? && Later(best.value, records[n]) then best else Some(records[n])
  }

  lemma LaterTransitive(a: Record, b: Record, c: Record)
    requires Later(a, b) && Later(b, c)
    ensures Later(a, c)
  {
    if a.createdAt == b.createdAt == c.createdAt { LessTransitive(c.id, b.id, a.id); }
  }

  lemma LaterTotal(a: Record, b: Record)
    requires a.id != b.id
    ensures Later(a, b) <==> !Later(b, a)
  {
    LessTotal(a.id, b.id);
    if Less(a.id, b.id) && Less(b.id, a.id) {
      LessTransitive(a.id, b.id, a.id);
      LessIrreflexive(a.id);
    }
  }

  ghost predicate DistinctIds(records: seq<Record>) {
    forall i, j :: 0 <= i < j < |records| ==> records[i].id != records[j].id
  }

  /** The latest record comes after every other one. */
  lemma {:induction false} LatestIsGreatest(records: seq<Record>)
    requires records != [] && DistinctIds(records)
    ensures forall r | r in records :: r == Latest(records).value || Later(Latest(records).value, r)
  {
    var n := |records| - 1;
    var x := records[n];
    if n > 0 {
      LatestIsGreatest(records[..n]);
      var best := Latest(records[..n]).value;
      assert best.id != x.id;
      LaterTotal(best, x);
      forall r | r in records ensures r == Latest(records).value || Later(Latest(records).value, r) {
        if r != x {
          assert r in records[..n];
          if r != best && Later(x, best) { LaterTransitive(x, best, r); }
        }
      }
    }
  }

  // ----- Writing a record -----

  function PreviousHash(records: seq<Record>, school: Option<string>): Option<string> {
    var latest := Latest(OfSchool(school, records));
    if latest.Some? then Some(latest.value.integrityHash) else None
  }

  function NewRecord(env: Env, records: seq<Record>, e: Entry, id: string, now: nat): Record {
    var previousHash := PreviousHash(records, e.schoolId);
    Record(id, e, previousHash, IntegrityHash(env, previousHash, e, now), now)
  }

  class AuditLog {
    var records: seq<Record>

    constructor ()
      ensures records == []
    {
      records := [];
    }

    /** Runs while the school's lock is held, with the clock reading and the generated key as inputs. */
    method RecordMutation(env: Env, entry: Entry, id: string, now: nat) returns (created: Record)
      requires Built(env, records) && forall r | r in records :: r.id != id
      modifies this
      ensures records == old(records) + [created] && Built(env, records)
      ensures created.id == id && created.entry == entry && created.createdAt == now
      ensures created.previousHash == PreviousHash(old(records), entry.schoolId)
    {
      created := NewRecord(env, records, entry, id, now);
      BuiltExtends(env, records, created);
      records := records + [created];
    }
  }

  /** A log that was filled by recording mutations one after the other, from empty. */
  ghost predicate Built(env: Env, records: seq<Record>) {
    && DistinctIds(records)
    && forall k | 0 <= k < |records| ::
         records[k] == NewRecord(env, records[..k], records[k].entry, records[k].id, records[k].createdAt)
  }

  lemma BuiltExtends(env: Env, records: seq<Record>, created: Record)
    requires Built(env, records) && (forall r | r in records :: r.id != created.id)
    requires created == NewRecord(env, records, created.entry, created.id, created.createdAt)
    ensures Built(env, records + [created])
  {
    hide NewRecord;
    var all := records + [created];
    forall k | 0 <= k < |all|
      ensures all[k] == NewRecord(env, all[..k], all[k].entry, all[k].id, all[k].createdAt)
    {
      assert all[..k] == records[..k];
      assert records[..|records|] == records;
    }
  }

  lemma BuiltPrefix(env: Env, records: seq<Record>, n: nat)
    requires Built(env, records) && n <= |records|
    ensures Built(env, records[..n])
  {
    hide NewRecord;
    var part := records[..n];
    forall k | 0 <= k < n ensures part[k] == NewRecord(env, part[..k], part[k].entry, part[k].id, part[k].createdAt) {
      assert part[..k] == records[..k] && part[k] == records[k];
    }
  }

  ghost predicate OneSchool(records: seq<Record>, school: Option<string>) {
    forall r | r in records :: r.entry.schoolId == school
  }

  lemma OneSchoolParts(records: seq<Record>, school: Option<string>, n: nat)
    requires OneSchool(records, school) && n <= |records|
    ensures OneSchool(records[..n], school)
    ensures n < |records| ==> records[n].entry.schoolId == school
  {
    assert forall r | r in records[..n] :: r in records;
    assert n < |records| ==> records[n] in records;
  }

  lemma {:induction false} OfSchoolIdentity(records: seq<Record>, school: Option<string>)
    requires OneSchool(records, school)
    ensures OfSchool(school, records) == records
  {
    if records != [] {
      var n := |records| - 1;
      OneSchoolParts(records, school, n);
      OfSchoolTurn(records, school, n);
      OfSchoolIdentity(records[..n], school);
      hide OneSchool, OfSchool;
      assert records == records[..n] + [records[n]];
    }
  }

  lemma OfSchoolTurn(records: seq<Record>, school: Option<string>, n: nat)
    requires n == |records| - 1
    ensures OfSchool(school, records)
         == OfSchool(school, records[..n]) + if records[n].entry.schoolId == school then [records[n]] else []
  {
  }

  lemma {:induction false} OfSchoolMembers(records: seq<Record>, school: Option<string>)
    ensures OneSchool(OfSchool(school, records), school)
    ensures forall r | r in OfSchool(school, records) :: r in records
  {
    if records != [] {
      var n := |records| - 1;
      OfSchoolMembers(records[..n], school);
    }
  }

  /** Schools do not disturb each other: the records of one school alone form a log of their own. */
  lemma {:induction false} SchoolsIndependent(env: Env, records: seq<Record>, school: Option<string>)
    requires Built(env, records)
    ensures Built(env, OfSchool(school, records))
  {
    if records != [] {
      var n := |records| - 1;
      var rest, x := OfSchool(school, records[..n]), records[n];
      BuiltPrefix(env, records, n);
      SchoolsIndependent(env, records[..n], school);
      OfSchoolMembers(records[..n], school);
      if x.entry.schoolId == school {
        OfSchoolIdentity(rest, school);
        forall r | r in rest ensures r.id != x.id {
          assert r in records[..n];
        }
        BuiltExtends(env, rest, x);
      } else {
        assert rest + [] == rest;
      }
    }
  }

  // ----- What a hash determines -----

  /** The hashed fields of two records agree, snapshots up to the order of their keys. */
  ghost predicate SameHashed(p: Record, q: Record) {
    && p.previousHash == q.previousHash
    && p.entry.(before := None, after := None) == q.entry.(before := None, after := None)
    && Same(ToJson(p.entry.before), ToJson(q.entry.before))
    && Same(ToJson(p.entry.after), ToJson(q.entry.after))
    && p.createdAt == q.createdAt
  }

  ghost predicate SnapshotsOk(e: Entry) {
    WellFormed(ToJson(e.before)) && WellFormed(ToJson(e.after))
  }

  ghost predicate Sealed(env: Env, r: Record) {
    r.integrityHash == IntegrityHash(env, r.previousHash, r.entry, r.createdAt)
  }

  function Names(): seq<string> {
    ["previousHash", "schoolId", "userId", "action", "module", "resourceId", "resourceType",
     "description", "before", "after", "createdAt"]
  }

  lemma NamesDistinct()
    ensures forall i, j :: 0 <= i < j < |Names()| ==> Names()[i] != Names()[j]
  {
  }

  lemma PayloadKeys(env: Env, p: Option<string>, e: Entry, t: nat)
    ensures |Payload(env, p, e, t).fields| == |Names()|
    ensures forall i | 0 <= i < |Names()| :: Payload(env, p, e, t).fields[i].key == Names()[i]
    ensures DistinctFields(Payload(env, p, e, t).fields)
  {
    hide NullOr, ToJson;
    NamesDistinct();
    assert forall i | 0 <= i < |Names()| :: Payload(env, p, e, t).fields[i].key == Names()[i];
    hide *;
  }

  lemma PayloadWellFormed(env: Env, p: Option<string>, e: Entry, t: nat)
    requires SnapshotsOk(e)
    ensures WellFormed(Payload(env, p, e, t))
  {
    PayloadKeys(env, p, e, t);
    hide Names, DistinctFields;
    var fs := Payload(env, p, e, t).fields;
    forall i | 0 <= i < |fs| ensures WellFormed(fs[i].value) {
    }
  }

  lemma SameFieldwise(a: Json, b: Json, i: nat)
    requires a.JObject? && b.JObject? && Same(a, b) && i < |a.fields| == |b.fields|
    requires DistinctFields(b.fields)
    requires forall k | 0 <= k < |a.fields| :: a.fields[k].key == b.fields[k].key
    ensures Same(a.fields[i].value, b.fields[i].value)
  {
    hide Same;
    var g := SameField(a, b, a.fields[i]);
    var j :| 0 <= j < |b.fields| && b.fields[j] == g;
    assert j == i;
  }

  /** An object with a field of this name and, up to the order of keys, this value. */
  ghost predicate Holds(r: Json, name: string, v: Json) {
    r.JObject? && exists f :: f in r.fields && f.key == name && Same(v, f.value)
  }

  /** The value an absent entry field is printed as. */
  function Nullable(s: Option<string>): Json {
    match s
    case Some(text) => JString(text)
    case None => JNull
  }

  function Snapshot(s: Option<Json>): Json {
    match s
    case None => JObject([])
    case Some(JNull) => JObject([])
    case Some(v) => v
  }

  /** What is hashed, read as JSON: an object with keys in ascending order that holds the eleven hashed fields,
      each under its own name, and nothing else. */
  lemma HashedTextReadsBack(env: Env, p: Option<string>, e: Entry, t: nat) returns (text: string, r: Json)
    requires SnapshotsOk(e)
    ensures IntegrityHash(env, p, e, t) == env.hash(text) && ReadValue(text) == Some((r, ""))
    ensures r.JObject? && |r.fields| == 11 && KeysInOrder(r)
    ensures Holds(r, "previousHash", Nullable(p)) && Holds(r, "schoolId", Nullable(e.schoolId))
    ensures Holds(r, "userId", JString(e.userId)) && Holds(r, "action", JString(e.action))
    ensures Holds(r, "module", JString(e.mod)) && Holds(r, "resourceId", Nullable(e.resourceId))
    ensures Holds(r, "resourceType", Nullable(e.resourceType)) && Holds(r, "description", JString(e.description))
    ensures Holds(r, "before", Snapshot(e.before)) && Holds(r, "after", Snapshot(e.after))
    ensures Holds(r, "createdAt", JString(env.iso(t)))
  {
    hide *;
    var payload := Payload(env, p, e, t);
    text := Canonical(payload);
    HashedText(env, p, e, t);
    PayloadWellFormed(env, p, e, t);
    assert text + "" == text;
    r := ReadsBack(payload, "");
    PayloadFields(env, p, e, t);
    SameSize(payload, r);
    forall f | f in payload.fields ensures Holds(r, f.key, f.value) { FieldHeld(payload, r, f); }
    EmptyForAbsent(r, "before", e.before);
    EmptyForAbsent(r, "after", e.after);
  }

  lemma HashedText(env: Env, p: Option<string>, e: Entry, t: nat)
    ensures IntegrityHash(env, p, e, t) == env.hash(Canonical(Payload(env, p, e, t)))
  {
  }

  lemma PayloadFields(env: Env, p: Option<string>, e: Entry, t: nat)
    ensures Payload(env, p, e, t).JObject?
    ensures var fs := Payload(env, p, e, t).fields;
            && |fs| == 11
            && Field("previousHash", Nullable(p)) in fs && Field("schoolId", Nullable(e.schoolId)) in fs
            && Field("userId", JString(e.userId)) in fs && Field("action", JString(e.action)) in fs
            && Field("module", JString(e.mod)) in fs && Field("resourceId", Nullable(e.resourceId)) in fs
            && Field("resourceType", Nullable(e.resourceType)) in fs
            && Field("description", JString(e.description)) in fs
            && Field("before", ToJson(e.before)) in fs && Field("after", ToJson(e.after)) in fs
            && Field("createdAt", JString(env.iso(t))) in fs
  {
    hide ToJson;
  }

  lemma SameSize(a: Json, b: Json)
    requires a.JObject? && a.fields != [] && Same(a, b)
    ensures b.JObject? && |b.fields| == |a.fields|
  {
  }

  lemma FieldHeld(a: Json, b: Json, f: Field)
    requires a.JObject? && b.JObject? && Same(a, b) && f in a.fields
    ensures Holds(b, f.key, f.value)
  {
    var g := SameField(a, b, f);
  }

  /** The database null reads back like an empty object. */
  lemma EmptyForAbsent(r: Json, name: string, s: Option<Json>)
    requires Holds(r, name, ToJson(s))
    ensures Holds(r, name, Snapshot(s))
  {
    var f :| f in r.fields && f.key == name && Same(ToJson(s), f.value);
    if ToJson(s).DbNull? { assert Same(JObject([]), f.value) by { EmptyAgrees(f.value); } }
  }

  lemma EmptyAgrees(v: Json)
    requires Same(DbNull, v)
    ensures Same(JObject([]), v)
  {
  }

  /** Equal integrity hashes mean equal hashed fields. */
  lemma HashDetermines(env: Env, p: Record, q: Record)
    requires CollisionFree(env) && Sealed(env, p) && Sealed(env, q)
    requires SnapshotsOk(p.entry) && SnapshotsOk(q.entry)
    requires p.integrityHash == q.integrityHash
    ensures SameHashed(p, q) && p.previousHash == q.previousHash
  {
    hide Canonical, WellFormed;
    var a := Payload(env, p.previousHash, p.entry, p.createdAt);
    var b := Payload(env, q.previousHash, q.entry, q.createdAt);
    PayloadWellFormed(env, p.previousHash, p.entry, p.createdAt);
    PayloadWellFormed(env, q.previousHash, q.entry, q.createdAt);
    PayloadKeys(env, p.previousHash, p.entry, p.createdAt);
    PayloadKeys(env, q.previousHash, q.entry, q.createdAt);
    assert Canonical(a) == Canonical(b);
    EqualTextSameValue(a, b);
    SamePayloads(env, p, q);
  }

  lemma PayloadAt(env: Env, p: Option<string>, e: Entry, t: nat)
    ensures Payload(env, p, e, t).JObject?
    ensures var fs := Payload(env, p, e, t).fields;
            && |fs| == 11
            && fs[0].value == NullOr(p) && fs[1].value == NullOr(e.schoolId) && fs[2].value == JString(e.userId)
            && fs[3].value == JString(e.action) && fs[4].value == JString(e.mod)
            && fs[5].value == NullOr(e.resourceId) && fs[6].value == NullOr(e.resourceType)
            && fs[7].value == JString(e.description) && fs[8].value == ToJson(e.before)
            && fs[9].value == ToJson(e.after) && fs[10].value == JString(env.iso(t))
  {
    hide NullOr, ToJson;
  }

  lemma SamePayloads(env: Env, p: Record, q: Record)
    requires CollisionFree(env)
    requires var a := Payload(env, p.previousHash, p.entry, p.createdAt);
             var b := Payload(env, q.previousHash, q.entry, q.createdAt);
             && Same(a, b) && |a.fields| == |b.fields| && DistinctFields(b.fields)
             && forall k | 0 <= k < |a.fields| :: a.fields[k].key == b.fields[k].key
    ensures SameHashed(p, q)
  {
    hide Same, Payload, DistinctFields, NullOr, ToJson;
    var a := Payload(env, p.previousHash, p.entry, p.createdAt);
    var b := Payload(env, q.previousHash, q.entry, q.createdAt);
    PayloadAt(env, p.previousHash, p.entry, p.createdAt);
    PayloadAt(env, q.previousHash, q.entry, q.createdAt);
    SameNullOr(p.previousHash, q.previousHash) by { SameFieldwise(a, b, 0); }
    SameNullOr(p.entry.schoolId, q.entry.schoolId) by { SameFieldwise(a, b, 1); }
    SameString(p.entry.userId, q.entry.userId) by { SameFieldwise(a, b, 2); }
    SameString(p.entry.action, q.entry.action) by { SameFieldwise(a, b, 3); }
    SameString(p.entry.mod, q.entry.mod) by { SameFieldwise(a, b, 4); }
    SameNullOr(p.entry.resourceId, q.entry.resourceId) by { SameFieldwise(a, b, 5); }
    SameNullOr(p.entry.resourceType, q.entry.resourceType) by { SameFieldwise(a, b, 6); }
    SameString(p.entry.description, q.entry.description) by { SameFieldwise(a, b, 7); }
    SameString(env.iso(p.createdAt), env.iso(q.createdAt)) by { SameFieldwise(a, b, 10); }
    SameFieldwise(a, b, 8);
    SameFieldwise(a, b, 9);
  }

  lemma SameNullOr(s: Option<string>, t: Option<string>)
    requires Same(NullOr(s), NullOr(t))
    ensures s == t
  {
  }

  lemma SameString(s: string, t: string)
    requires Same(JString(s), JString(t))
    ensures s == t
  {
  }

  // ----- The chain -----

  /** One unforked chain from a null root. */
  ghost predicate Chain(rs: seq<Record>) {
    && (rs != [] ==> rs[0].previousHash == None)
    && forall k | 1 <= k < |rs| :: rs[k].previousHash == Some(rs[k - 1].integrityHash)
  }

  ghost predicate InOrder(rs: seq<Record>) {
    forall i, j :: 0 <= i < j < |rs| ==> Later(rs[j], rs[i])
  }

  ghost predicate AllOk(rs: seq<Record>) {
    forall r | r in rs :: SnapshotsOk(r.entry)
  }

  /** In a chain no two records have the same hash. */
  lemma {:induction false} ChainHashesDistinct(env: Env, rs: seq<Record>, i: nat, j: nat)
    requires CollisionFree(env) && Chain(rs) && AllOk(rs) && (forall r | r in rs :: Sealed(env, r))
    requires i < j < |rs|
    ensures rs[i].integrityHash != rs[j].integrityHash
  {
    hide IntegrityHash, SnapshotsOk, SameHashed, NewRecord;
    if rs[i].integrityHash == rs[j].integrityHash {
      assert rs[i] in rs && rs[j] in rs;
      HashDetermines(env, rs[i], rs[j]);
      assert rs[j].previousHash == Some(rs[j - 1].integrityHash);
      if i > 0 {
        assert rs[i].previousHash == Some(rs[i - 1].integrityHash);
        ChainHashesDistinct(env, rs, i - 1, j - 1);
      }
    }
  }

  lemma BuiltLinks(env: Env, rs: seq<Record>, school: Option<string>, k: nat)
    requires Built(env, rs) && OneSchool(rs, school) && k < |rs|
    ensures Sealed(env, rs[k])
    ensures rs[k].previousHash == if k == 0 then None else Some(Latest(rs[..k]).value.integrityHash)
  {
    assert rs[k] in rs;
    assert forall r | r in rs[..k] :: r in rs;
    OfSchoolIdentity(rs[..k], school);
  }

  /** A school's records form one unforked chain exactly when each of them, except perhaps the last
      one so far, was stamped later than all before it. */
  lemma ChainIffInOrder(env: Env, rs: seq<Record>, school: Option<string>)
    requires CollisionFree(env) && Built(env, rs) && OneSchool(rs, school) && AllOk(rs) && rs != []
    ensures Chain(rs) <==> InOrder(rs[..|rs| - 1])
  {
    hide IntegrityHash, SnapshotsOk, SameHashed, NewRecord;
    var n := |rs| - 1;
    if InOrder(rs[..n]) {
      forall k | 0 <= k < |rs|
        ensures rs[k].previousHash == if k == 0 then None else Some(rs[k - 1].integrityHash)
      {
        BuiltLinks(env, rs, school, k);
        if k > 0 { LatestOfOrdered(rs[..n], k, rs); }
      }
      BuiltLinks(env, rs, school, 0);
      assert Chain(rs);
    }
    if Chain(rs) {
      forall i, j | 0 <= i < j < n ensures Later(rs[..n][j], rs[..n][i]) {
        ChainOrders(env, rs, school, i, j);
      }
      assert InOrder(rs[..n]);
    }
  }

  lemma LatestOfOrdered(p: seq<Record>, k: nat, rs: seq<Record>)
    requires InOrder(p) && 1 <= k <= |p| && p <= rs && DistinctIds(rs)
    ensures Latest(rs[..k]).value == rs[k - 1]
  {
    assert rs[..k] == p[..k];
    LatestIsGreatest(rs[..k]);
    var m := Latest(rs[..k]).value;
    var i :| 0 <= i < k && rs[i] == m;
    if i < k - 1 {
      assert Later(p[k - 1], p[i]);
      assert rs[k - 1] in rs[..k];
      LaterTotal(m, rs[k - 1]);
    }
  }

  lemma ChainOrders(env: Env, rs: seq<Record>, school: Option<string>, i: nat, j: nat)
    requires CollisionFree(env) && Built(env, rs) && OneSchool(rs, school) && AllOk(rs) && Chain(rs)
    requires i < j < |rs| - 1
    ensures Later(rs[j], rs[i])
  {
    hide *;
    BuiltSealed(env, rs, school);
    BuiltLinks(env, rs, school, j + 1);
    ChainLink(rs, j + 1);
    BuiltDistinct(env, rs, j + 1);
    LatestIsGreatest(rs[..j + 1]);
    var m := Latest(rs[..j + 1]).value;
    var k :| 0 <= k <= j && rs[k] == m;
    if k < j { ChainHashesDistinct(env, rs, k, j); }
    assert rs[i] == rs[..j + 1][i] && rs[j] == rs[..j + 1][j];
    if m == rs[i] { DifferentIds(env, rs, i, j); }
  }

  lemma ChainLink(rs: seq<Record>, k: nat)
    requires Chain(rs) && 1 <= k < |rs|
    ensures rs[k].previousHash == Some(rs[k - 1].integrityHash)
  {
  }

  lemma BuiltDistinct(env: Env, rs: seq<Record>, k: nat)
    requires Built(env, rs) && k <= |rs|
    ensures DistinctIds(rs[..k])
  {
    hide NewRecord;
  }

  lemma DifferentIds(env: Env, rs: seq<Record>, i: nat, j: nat)
    requires Built(env, rs) && i < j < |rs|
    ensures rs[i] != rs[j]
  {
    hide NewRecord;
    assert rs[i].id != rs[j].id;
  }

  lemma BuiltSealed(env: Env, rs: seq<Record>, school: Option<string>)
    requires Built(env, rs) && OneSchool(rs, school)
    ensures forall r | r in rs :: Sealed(env, r)
  {
    hide Sealed, Built;
    forall r | r in rs ensures Sealed(env, r) {
      var k :| 0 <= k < |rs| && rs[k] == r;
      BuiltLinks(env, rs, school, k);
    }
  }

  /** With strictly increasing stamps every school has one chain from a null root, in a log shared by
      any number of schools. */
  lemma EverySchoolChained(env: Env, records: seq<Record>, school: Option<string>)
    requires CollisionFree(env) && Built(env, records) && AllOk(records)
    requires InOrder(OfSchool(school, records))
    ensures Chain(OfSchool(school, records))
  {
    hide IntegrityHash, SnapshotsOk, SameHashed, NewRecord;
    var rs := OfSchool(school, records);
    SchoolsIndependent(env, records, school);
    OfSchoolMembers(records, school);
    if rs != [] { ChainIffInOrder(env, rs, school); }
  }

  ghost predicate SealedChain(env: Env, rs: seq<Record>) {
    Chain(rs) && AllOk(rs) && forall r | r in rs :: Sealed(env, r)
  }

  lemma SealedChainBack(env: Env, rs: seq<Record>)
    requires SealedChain(env, rs) && rs != []
    ensures SealedChain(env, rs[..|rs| - 1])
    ensures Sealed(env, rs[|rs| - 1]) && SnapshotsOk(rs[|rs| - 1].entry)
    ensures rs[|rs| - 1].previousHash == if |rs| == 1 then None else Some(rs[|rs| - 2].integrityHash)
  {
    hide Sealed, SnapshotsOk;
    var n := |rs| - 1;
    assert rs[n] in rs && forall r | r in rs[..n] :: r in rs;
    assert n > 0 ==> rs[n].previousHash == Some(rs[n - 1].integrityHash);
  }

  /** The last integrity hash of a chain determines the length and every hashed field of the whole
      history behind it. */
  lemma {:induction false} LastHashDeterminesHistory(env: Env, rs: seq<Record>, qs: seq<Record>)
    requires CollisionFree(env) && SealedChain(env, rs) && SealedChain(env, qs)
    requires rs != [] && qs != [] && rs[|rs| - 1].integrityHash == qs[|qs| - 1].integrityHash
    ensures |rs| == |qs| && forall k | 0 <= k < |rs| :: SameHashed(rs[k], qs[k])
  {
    hide *;
    var m, n := |rs| - 1, |qs| - 1;
    SealedChainBack(env, rs);
    SealedChainBack(env, qs);
    HashDetermines(env, rs[m], qs[n]);
    if m > 0 {
      LastHashDeterminesHistory(env, rs[..m], qs[..n]);
      forall k | 0 <= k < |rs| ensures SameHashed(rs[k], qs[k]) {
        if k < m { assert rs[k] == rs[..m][k] && qs[k] == qs[..n][k]; }
      }
    }
  }

  /** Two records stamped in the same millisecond with descending ids fork the chain: the third
      record continues from the first, beside the second. */
  lemma TieForksChain(env: Env, e: Entry, now: nat)
    requires CollisionFree(env) && SnapshotsOk(e)
    ensures var r0 := NewRecord(env, [], e, "b", now);
            var r1 := NewRecord(env, [r0], e, "a", now);
            var r2 := NewRecord(env, [r0, r1], e, "c", now + 1);
            && Built(env, [r0, r1, r2])
            && r1.previousHash == r2.previousHash == Some(r0.integrityHash)
            && !Chain([r0, r1, r2])
  {
    hide IntegrityHash, SnapshotsOk, SameHashed;
    var r0 := NewRecord(env, [], e, "b", now);
    var r1 := NewRecord(env, [r0], e, "a", now);
    var r2 := NewRecord(env, [r0, r1], e, "c", now + 1);
    TieBuilt(env, r0, r1, r2);
    OfSchoolIdentity([r0], e.schoolId);
    OfSchoolIdentity([r0, r1], e.schoolId);
    assert [r0, r1][..1] == [r0];
    assert Latest([r0]) == Some(r0);
    assert Later(r0, r1);
    assert Latest([r0, r1]) == Some(r0);
    if r0.integrityHash == r1.integrityHash { HashDetermines(env, r0, r1); }
    assert [r0, r1, r2][2].previousHash != Some([r0, r1, r2][1].integrityHash);
  }

  lemma TieBuilt(env: Env, r0: Record, r1: Record, r2: Record)
    requires r0 == NewRecord(env, [], r0.entry, r0.id, r0.createdAt)
    requires r1 == NewRecord(env, [r0], r1.entry, r1.id, r1.createdAt)
    requires r2 == NewRecord(env, [r0, r1], r2.entry, r2.id, r2.createdAt)
    requires r0.id != r1.id && r0.id != r2.id && r1.id != r2.id
    ensures Built(env, [r0, r1, r2])
  {
    hide NewRecord;
    assert [] + [r0] == [r0] && [r0] + [r1] == [r0, r1] && [r0, r1] + [r2] == [r0, r1, r2];
    BuiltExtends(env, [], r0);
    BuiltExtends(env, [r0], r1);
    BuiltExtends(env, [r0, r1], r2);
  }

  // ----- A stale read -----

  /** A record whose writer has read the log when it held `rs[..k]`. */
  ghost predicate WrittenFrom(env: Env, rs: seq<Record>, k: nat, r: Record)
    requires k <= |rs|
  {
    r.previousHash == (if k == 0 then None else Some(rs[k - 1].integrityHash)) && Sealed(env, r) && SnapshotsOk(r.entry)
  }

  /** The lock has to be held from the read to the commit: a record continues a chain if and only if its
      writer has read all of it. A caller without a transaction releases the lock at once, and two such
      callers can fork the chain. */
  lemma ContinuesIffReadAll(env: Env, rs: seq<Record>, k: nat, r: Record)
    requires CollisionFree(env) && SealedChain(env, rs) && k <= |rs| && WrittenFrom(env, rs, k, r)
    ensures Chain(rs + [r]) <==> k == |rs|
  {
    hide Sealed, SnapshotsOk, CollisionFree;
    var all := rs + [r];
    if Chain(all) && k < |rs| {
      assert all[|rs|].previousHash == Some(all[|rs| - 1].integrityHash);
      if k > 0 { ChainHashesDistinct(env, rs, k - 1, |rs| - 1); }
    }
    if k == |rs| {
      forall j | 1 <= j < |all| ensures all[j].previousHash == Some(all[j - 1].integrityHash) {
      }
    }
  }
}

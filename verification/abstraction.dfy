/**
  The string-keyed database seen as a map from namespace and name to report.
 */
module Abstraction {
  import opened Wrappers
  import opened Keys
  import opened Decimal
  import opened Codec
  import opened InMemory
  import opened Listing
  import opened Handlers

  datatype Id = Id(namespace: string, name: string)

  function IdOf(r: Report): Id {
    Id(r.namespace, r.name)
  }

  function KeyAt(id: Id): string {
    Key(V1ALPHA2, id.name, id.namespace)
  }

  /** The report that a value decodes to. */
  function ReportAt(v: Value): Report {
    Decode(FieldsOf(v))
  }

  predicate InRoot(k: string) {
    NamespacedRoot(V1ALPHA2) <= k
  }

  lemma KeysAreInRoot(r: Report)
    ensures InRoot(KeyOf(r))
  {
    RootExact(V1ALPHA2, V1ALPHA2, r.name, r.namespace);
  }

  /** The value decodes, to a report that belongs under this key and whose version parses. */
  predicate SoundIn(res: Resource, k: string, v: Value) {
    v.data.Json? && KeyIn(res, ReportAt(v)) == k && ParseInt(ReportAt(v).resourceVersion).Some?
  }

  predicate Sound(k: string, v: Value) {
    SoundIn(PolicyReports, k, v)
  }

  ghost predicate AllSound(db: Db) {
    forall k :: k in db && InRoot(k) ==> Sound(k, db[k])
  }

  /** Namespaces are path segments. */
  ghost predicate Segmented(db: Db) {
    forall k :: k in db && InRoot(k) ==> SlashFree(ReportAt(db[k]).namespace)
  }

  /** The two databases hold the same namespaced reports. */
  ghost predicate Agree(db: Db, db': Db) {
    forall k :: InRoot(k) ==> (k in db <==> k in db') && (k in db ==> db[k] == db'[k])
  }

  lemma StoredInIsSound(res: Resource, r: Report, modified: int)
    ensures ReportAt(StoredIn(res, r, modified)) == Norm(r)
    ensures ParseInt(r.resourceVersion).Some? ==> SoundIn(res, KeyIn(res, r), StoredIn(res, r, modified))
  {
    RoundTrip(r);
  }

  lemma StoredIsSound(r: Report, modified: int)
    ensures ReportAt(Stored(r, modified)) == Norm(r)
    ensures ParseInt(r.resourceVersion).Some? ==> Sound(KeyOf(r), Stored(r, modified))
  {
    StoredInIsSound(PolicyReports, r, modified);
  }

  ghost function Ids(db: Db): set<Id> {
    set k | k in db && InRoot(k) :: IdOf(ReportAt(db[k]))
  }

  ghost function Abs(db: Db): map<Id, Report>
    requires AllSound(db)
  {
    map id | id in Ids(db) :: ReportAt(db[KeyAt(id)])
  }

  /** Looking up a report by its key is looking it up by its namespace and name. */
  lemma AbsAt(db: Db, id: Id)
    requires AllSound(db) && Segmented(db)
    ensures id in Abs(db) <==> SlashFree(id.namespace) && KeyAt(id) in db
    ensures id in Abs(db) ==> Abs(db)[id] == ReportAt(db[KeyAt(id)]) && IdOf(Abs(db)[id]) == id
  {
    RootExact(V1ALPHA2, V1ALPHA2, id.name, id.namespace);
    if SlashFree(id.namespace) && KeyAt(id) in db {
      var r := ReportAt(db[KeyAt(id)]);
      KeyInjective(V1ALPHA2, r.name, r.namespace, V1ALPHA2, id.name, id.namespace);
    }
  }

  lemma FetchAt(db: Db, name: string, namespace: string)
    requires AllSound(db) && Segmented(db) && SlashFree(namespace)
    ensures GetReport(db, name, namespace) == AbsFetch(Abs(db), name, namespace)
  {
    AbsAt(db, Id(namespace, name));
    RootExact(V1ALPHA2, V1ALPHA2, name, namespace);
  }

  lemma SameMap<K, V>(a: map<K, V>, b: map<K, V>)
    requires forall k :: k in a <==> k in b
    requires forall k :: k in a ==> a[k] == b[k]
    ensures a == b
  {
  }

  lemma PutKeepsSound(db: Db, r: Report, modified: int)
    requires AllSound(db) && ParseInt(r.resourceVersion).Some?
    ensures AllSound(db[KeyOf(r) := Stored(r, modified)])
    ensures Segmented(db) && SlashFree(r.namespace) ==> Segmented(db[KeyOf(r) := Stored(r, modified)])
  {
    StoredIsSound(r, modified);
  }

  lemma AbsPutAt(db: Db, r: Report, modified: int, id: Id)
    requires AllSound(db) && Segmented(db) && SlashFree(r.namespace)
    requires AllSound(db[KeyOf(r) := Stored(r, modified)]) && Segmented(db[KeyOf(r) := Stored(r, modified)])
    ensures var a, a' := Abs(db), Abs(db[KeyOf(r) := Stored(r, modified)]);
            && (id in a' <==> id in a || id == IdOf(r))
            && (id in a' ==> a'[id] == if id == IdOf(r) then Norm(r) else a[id])
  {
    AbsAt(db, id);
    AbsAt(db[KeyOf(r) := Stored(r, modified)], id);
    StoredIsSound(r, modified);
    if SlashFree(id.namespace) {
      KeyInjective(V1ALPHA2, id.name, id.namespace, V1ALPHA2, r.name, r.namespace);
    }
  }

  /** Writing a report under its key is writing its normal form under its identity. */
  lemma AbsPut(db: Db, r: Report, modified: int)
    requires AllSound(db) && Segmented(db) && SlashFree(r.namespace) && ParseInt(r.resourceVersion).Some?
    ensures var db' := db[KeyOf(r) := Stored(r, modified)];
            AllSound(db') && Segmented(db') && Abs(db') == Abs(db)[IdOf(r) := Norm(r)]
  {
    PutKeepsSound(db, r, modified);
    var a' := Abs(db[KeyOf(r) := Stored(r, modified)]);
    forall id
      ensures id in a' <==> id in Abs(db)[IdOf(r) := Norm(r)]
      ensures id in a' ==> a'[id] == Abs(db)[IdOf(r) := Norm(r)][id]
    {
      AbsPutAt(db, r, modified, id);
    }
    SameMap(a', Abs(db)[IdOf(r) := Norm(r)]);
  }

  ghost function IdsOf(rs: seq<Report>): set<Id> {
    set r | r in rs :: IdOf(r)
  }

  lemma IdsAndKeys(rs: seq<Report>, id: Id)
    requires SlashFree(id.namespace) && forall r :: r in rs ==> SlashFree(r.namespace)
    ensures id in IdsOf(rs) <==> KeyAt(id) in KeysOf(rs)
  {
    forall r | r in rs
      ensures KeyOf(r) == KeyAt(id) <==> IdOf(r) == id
    {
      KeyInjective(V1ALPHA2, id.name, id.namespace, V1ALPHA2, r.name, r.namespace);
    }
  }

  lemma AbsDropAt(db: Db, rs: seq<Report>, id: Id)
    requires AllSound(db) && Segmented(db) && forall r :: r in rs ==> SlashFree(r.namespace)
    requires AllSound(db - KeysOf(rs)) && Segmented(db - KeysOf(rs))
    ensures var a, a' := Abs(db), Abs(db - KeysOf(rs));
            && (id in a' <==> id in a && id !in IdsOf(rs))
            && (id in a' ==> a'[id] == a[id])
  {
    AbsAt(db, id);
    AbsAt(db - KeysOf(rs), id);
    if SlashFree(id.namespace) {
      IdsAndKeys(rs, id);
    }
  }

  /** Removing keys is removing identities. */
  lemma AbsDrop(db: Db, rs: seq<Report>)
    requires AllSound(db) && Segmented(db) && forall r :: r in rs ==> SlashFree(r.namespace)
    ensures var db' := db - KeysOf(rs);
            AllSound(db') && Segmented(db') && Abs(db') == Abs(db) - IdsOf(rs)
  {
    var a' := Abs(db - KeysOf(rs));
    forall id
      ensures id in a' <==> id in Abs(db) - IdsOf(rs)
      ensures id in a' ==> a'[id] == Abs(db)[id]
    {
      AbsDropAt(db, rs, id);
    }
    SameMap(a', Abs(db) - IdsOf(rs));
  }

  lemma AgreeAt(db: Db, db': Db, id: Id)
    requires AllSound(db) && Segmented(db) && AllSound(db') && Segmented(db') && Agree(db, db')
    ensures id in Abs(db) <==> id in Abs(db')
    ensures id in Abs(db) ==> Abs(db)[id] == Abs(db')[id]
  {
    AbsAt(db, id);
    AbsAt(db', id);
    RootExact(V1ALPHA2, V1ALPHA2, id.name, id.namespace);
  }

  /** What other stores do to their own entries of the database is not seen. */
  lemma AbsAgree(db: Db, db': Db)
    requires AllSound(db) && Segmented(db) && Agree(db, db')
    ensures AllSound(db') && Segmented(db') && Abs(db') == Abs(db)
  {
    forall id
      ensures id in Abs(db) <==> id in Abs(db')
      ensures id in Abs(db) ==> Abs(db)[id] == Abs(db')[id]
    {
      AgreeAt(db, db', id);
    }
    SameMap(Abs(db), Abs(db'));
  }

  // ----- What an effect is allowed to be -----

  /** The effect fits the database it is about to change, and its versions follow the rule of its kind. */
  ghost predicate Honest(db: Db, e: Effect) {
    match e
    case Nothing => true
    case Wrote(kind, r, _) =>
      && (kind == Fresh <==> KeyOf(r) !in db)
      && (kind != Bump ==> r.resourceVersion == FormatInt(1))
      && (kind == Bump ==>
            var v := ParseInt(ReportAt(db[KeyOf(r)]).resourceVersion);
            v.Some? && r.resourceVersion == FormatInt(Successor(v.value)))
    case Phantom(r) => KeyOf(r) !in db
    case Dropped(rs, _) =>
      && (forall r :: r in rs ==> KeyOf(r) in db && r == ReportAt(db[KeyOf(r)]))
      && Distinct(rs)
  }

  lemma FetchIsSound(db: Db, name: string, namespace: string)
    requires AllSound(db)
    ensures var key, f := Key(V1ALPHA2, name, namespace), GetReport(db, name, namespace);
            if key in db then f == Fetched(ReportAt(db[key])) && Sound(key, db[key])
            else f == NotFetched(Missing)
  {
    RootExact(V1ALPHA2, V1ALPHA2, name, namespace);
  }

  lemma {:induction false} DeleteItemsIsHonest(db: Db, items: seq<Report>, namespace: string,
                                               validDelete: Report -> bool)
    requires AllSound(db)
    ensures Honest(db, Dropped(DeleteItems(PolicyReports, db, items, namespace, validDelete).0, true))
    decreases |items|
  {
    if |items| > 0 {
      FetchIsSound(db, items[0].name, namespace);
      var plan := PlanDelete(validDelete, [], GetReport(db, items[0].name, namespace));
      if plan.Proceed? {
        var smaller := db - {KeyOf(plan.report)};
        DeleteItemsIsHonest(smaller, items[1..], namespace, validDelete);
        var rest := DeleteItems(PolicyReports, smaller, items[1..], namespace, validDelete).0;
        assert forall r :: r in rest ==> KeyOf(r) in smaller;
      }
    }
  }

  /** On a sound database every request has an honest effect. */
  lemma HandleIsHonest(db: Db, q: Request, order: seq<string>)
    requires AllSound(db)
    requires Lists(q) ==> forall k :: k in order ==> k in db
    ensures Honest(db, Handle(db, q, order).effect)
  {
    assert FormatInt(1) == "1";
    if q.Create? {
    } else if q.Update? {
      var plan := if q.force then PlanForced(q.transform, GetReport(db, q.name, q.namespace))
                  else PlanUpdate(q, GetReport(db, q.name, q.namespace));
      if plan.Proceed? {
        FetchIsSound(db, plan.report.name, plan.report.namespace);
      }
    } else if q.Delete? {
      FetchIsSound(db, q.name, q.namespace);
    } else if q.DeleteCollection? {
      var items := ListReports(db, q.selector, order);
      if items.Some? {
        DeleteItemsIsHonest(db, items.value, q.namespace, q.validDelete);
      }
    }
  }

  lemma VersionsParse(db: Db, e: Effect)
    requires Honest(db, e) && e.Wrote?
    ensures ParseInt(e.report.resourceVersion).Some?
  {
    ParseFormatInt(1);
    if e.kind == Bump {
      var v := ParseInt(ReportAt(db[KeyOf(e.report)]).resourceVersion);
      ParseFormatInt(Successor(v.value));
    }
  }

  /** Every key goes on agreeing with the report stored under it, and every version goes on parsing. */
  lemma HonestKeepsSound(st: State, e: Effect)
    requires AllSound(st.db) && Honest(st.db, e)
    ensures AllSound(Apply(st, e).db)
  {
    if e.Wrote? {
      VersionsParse(st.db, e);
      StoredIsSound(e.report, e.modified);
    }
  }

  // ----- Refinement of an abstract store -----

  /** The request names its namespaces by path segments. */
  ghost predicate Legal(q: Request) {
    && SlashFree(q.namespace)
    && (q.Create? && q.obj.ReportObject? ==> SlashFree(q.obj.report.namespace))
    && (q.Update? ==> forall o :: q.transform(o).Some? && q.transform(o).value.ReportObject? ==>
                        SlashFree(q.transform(o).value.report.namespace))
  }

  function AbsFetch(a: map<Id, Report>, name: string, namespace: string): Fetch {
    if Id(namespace, name) in a then Fetched(a[Id(namespace, name)]) else NotFetched(Missing)
  }

  /** The store without keys, text or revisions: a map from identities to reports. */
  function AbsHandle(a: map<Id, Report>, q: Request): (map<Id, Report>, Response)
    requires !Lists(q)
  {
    match q
    case Get(name, ns) => (a, if Id(ns, name) in a then Accepted(a[Id(ns, name)]) else Failed(NotFound))
    case Create(_, _, _, _, _, _, _, _) => (
      match PlanCreate(q)
      case Answer(response) => (a, response)
      case Proceed(r) =>
        if IdOf(r) in a then (a, Failed(BadRequest(Refused))) else (a[IdOf(r) := Norm(r)], Accepted(r)))
    case Delete(name, ns, validDelete, dryRun) => (
      match PlanDelete(validDelete, dryRun, AbsFetch(a, name, ns))
      case Answer(response) => (a, response)
      case Proceed(r) => (a - {Id(ns, name)}, Removed(Marshal(r))))
    case Update(name, ns, _, _, force, _, _, _) =>
      var fetch := AbsFetch(a, name, ns);
      match if force then PlanForced(q.transform, fetch) else PlanUpdate(q, fetch)
      case Answer(response) => (a, response)
      case Proceed(r) =>
        if force then (if IdOf(r) in a then a[IdOf(r) := Norm(r)] else a, Accepted(r))
        else
          match PlanBump(r, AbsFetch(a, r.name, r.namespace))
          case Answer(response) => (a, response)
          case Proceed(bumped) => (a[IdOf(r) := Norm(bumped)], Accepted(bumped))
  }

  ghost function AbsEffect(a: map<Id, Report>, e: Effect): map<Id, Report> {
    match e
    case Nothing => a
    case Wrote(_, r, _) => a[IdOf(r) := Norm(r)]
    case Phantom(_) => a
    case Dropped(rs, _) => a - IdsOf(rs)
  }

  /** An honest effect on reports in path-segment namespaces, seen abstractly. */
  lemma AbsApply(st: State, e: Effect)
    requires AllSound(st.db) && Segmented(st.db) && Honest(st.db, e)
    requires e.Wrote? ==> SlashFree(e.report.namespace)
    ensures var st' := Apply(st, e);
            && AllSound(st'.db) && Segmented(st'.db)
            && Abs(st'.db) == AbsEffect(Abs(st.db), e)
  {
    if e.Wrote? {
      VersionsParse(st.db, e);
      AbsPut(st.db, e.report, e.modified);
    } else if e.Dropped? {
      forall r | r in e.reports
        ensures SlashFree(r.namespace)
      {
        KeysAreInRoot(r);
      }
      AbsDrop(st.db, e.reports);
    }
  }

  lemma LegalEffects(db: Db, q: Request, order: seq<string>)
    requires Legal(q)
    requires Lists(q) ==> forall k :: k in order ==> k in db
    ensures var e := Handle(db, q, order).effect; e.Wrote? || e.Phantom? ==> SlashFree(e.report.namespace)
  {
    if q.Create? {
      assert PlanCreate(q).Proceed? ==> SlashFree(PlanCreate(q).report.namespace);
    } else if q.Update? {
      var fetch := GetReport(db, q.name, q.namespace);
      var plan := if q.force then PlanForced(q.transform, fetch) else PlanUpdate(q, fetch);
      assert plan.Proceed? ==> SlashFree(plan.report.namespace);
    }
  }

  lemma RefinesCreate(db: Db, q: Request)
    requires AllSound(db) && Segmented(db) && Legal(q) && q.Create?
    ensures AbsHandle(Abs(db), q) == (AbsEffect(Abs(db), HandleCreate(db, q).effect), HandleCreate(db, q).response)
  {
    if PlanCreate(q).Proceed? {
      AbsAt(db, IdOf(PlanCreate(q).report));
    }
  }

  lemma RefinesDelete(db: Db, q: Request)
    requires AllSound(db) && Segmented(db) && Legal(q) && q.Delete?
    ensures AbsHandle(Abs(db), q) == (AbsEffect(Abs(db), Handle(db, q, []).effect), Handle(db, q, []).response)
  {
    FetchAt(db, q.name, q.namespace);
    AbsAt(db, Id(q.namespace, q.name));
    if Id(q.namespace, q.name) in Abs(db) {
      var r := Abs(db)[Id(q.namespace, q.name)];
      assert IdsOf([r]) == {IdOf(r)};
    }
  }

  lemma RefinesForced(db: Db, q: Request)
    requires AllSound(db) && Segmented(db) && Legal(q) && q.Update? && q.force
    ensures AbsHandle(Abs(db), q) == (AbsEffect(Abs(db), Handle(db, q, []).effect), Handle(db, q, []).response)
  {
    FetchAt(db, q.name, q.namespace);
    var plan := PlanForced(q.transform, GetReport(db, q.name, q.namespace));
    if plan.Proceed? {
      AbsAt(db, IdOf(plan.report));
    }
  }

  lemma RefinesUpdate(db: Db, q: Request)
    requires AllSound(db) && Segmented(db) && Legal(q) && q.Update? && !q.force
    ensures AbsHandle(Abs(db), q) == (AbsEffect(Abs(db), HandleUpdate(db, q).effect), HandleUpdate(db, q).response)
  {
    FetchAt(db, q.name, q.namespace);
    var plan := PlanUpdate(q, GetReport(db, q.name, q.namespace));
    if plan.Proceed? {
      FetchAt(db, plan.report.name, plan.report.namespace);
      AbsAt(db, IdOf(plan.report));
    }
  }

  /** Every request that does not list has, through keys and text, the abstract effect and the abstract response. */
  lemma Refines(st: State, q: Request, order: seq<string>)
    requires AllSound(st.db) && Segmented(st.db) && Legal(q) && !Lists(q)
    ensures var outcome := Handle(st.db, q, order);
            var st' := Apply(st, outcome.effect);
            && AllSound(st'.db) && Segmented(st'.db)
            && AbsHandle(Abs(st.db), q) == (Abs(st'.db), outcome.response)
  {
    HandleIsHonest(st.db, q, order);
    LegalEffects(st.db, q, order);
    AbsApply(st, Handle(st.db, q, order).effect);
    match q
    case Get(name, ns) => FetchAt(st.db, name, ns);
    case Create(_, _, _, _, _, _, _, _) => RefinesCreate(st.db, q);
    case Delete(_, _, _, _) => RefinesDelete(st.db, q);
    case Update(_, _, _, _, force, _, _, _) =>
      if force {
        RefinesForced(st.db, q);
      } else {
        RefinesUpdate(st.db, q);
      }
  }
}

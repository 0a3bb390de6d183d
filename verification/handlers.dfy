/**
  What each request of the namespaced report store does, as a function of the
  database it finds: an effect on the database and the watch log, and a response.
  What the cluster report store does alike is stated here once, for both.
  Identifiers, clock readings, validator verdicts and the order in which the
  database walks over its map are inputs.
 */
module Handlers {
  import opened Wrappers
  import opened Keys
  import opened Decimal
  import opened Codec
  import opened InMemory
  import opened Listing

  /** An object handed to a handler: a report, or something of another kind. */
  datatype Object = ReportObject(report: Report) | OtherObject

  datatype Request =
    | Get(name: string, namespace: string)
    | List(namespace: string, selector: Option<Selector>)
    | Create(namespace: string, obj: Object, valid: bool, fieldValidation: string, dryRun: seq<string>,
             uid: string, created: Time, modified: int)
    | Update(name: string, namespace: string, transform: Option<Report> -> Option<Object>,
             validUpdate: (Object, Report) -> bool, force: bool, fieldValidation: string, dryRun: seq<string>,
             modified: int)
    | Delete(name: string, namespace: string, validDelete: Report -> bool, dryRun: seq<string>)
    | DeleteCollection(namespace: string, validDelete: Report -> bool, dryRun: seq<string>, selector: Option<Selector>)

  datatype Cause = WrongKind | Refused | Missing | Undecodable | BadVersion | Rejected | NotListed | NotDeleted

  datatype Error = NotFound | BadRequest(cause: Cause) | FetchFailed(cause: Cause) | Invalid | NotTransformed

  datatype Response =
    | Accepted(report: Report)
    | Listed(items: seq<Report>)
    | Removed(fields: Fields)
    | Failed(error: Error)
    | Panicked

  /** `DeletedObject` carries the untyped object that Delete returned to the collection loop. */
  datatype Event = Added(report: Report) | Deleted(report: Report) | DeletedObject(fields: Fields)

  /** Why a stored value was written. */
  datatype WriteKind = Fresh | Bump | Reset

  datatype Effect =
    | Nothing
    | Wrote(kind: WriteKind, report: Report, modified: int)
    | Phantom(report: Report)
    | Dropped(reports: seq<Report>, twice: bool)

  datatype Outcome = Outcome(effect: Effect, response: Response)

  datatype State = State(db: Db, log: seq<Event>)

  /** The two resources that the server keeps in one database, each under keys of its own. */
  datatype Resource = PolicyReports | ClusterPolicyReports

  /** Where a resource keeps the report of this name; cluster reports are found by name alone. */
  function KeyFor(res: Resource, name: string, namespace: string): string {
    match res
    case PolicyReports => Key(V1ALPHA2, name, namespace)
    case ClusterPolicyReports => ClusterKey(V1ALPHA2, name)
  }

  function KeyOf(r: Report): string {
    Key(V1ALPHA2, r.name, r.namespace)
  }

  function KeyIn(res: Resource, r: Report): string {
    match res
    case PolicyReports => KeyOf(r)
    case ClusterPolicyReports => ClusterKey(V1ALPHA2, r.name)
  }

  function StoredIn(res: Resource, r: Report, modified: int): Value {
    Value(KeyIn(res, r), Json(Marshal(r)), modified)
  }

  function Stored(r: Report, modified: int): Value {
    StoredIn(PolicyReports, r, modified)
  }

  function KeysIn(res: Resource, rs: seq<Report>): set<string> {
    set r | r in rs :: KeyIn(res, r)
  }

  function KeysOf(rs: seq<Report>): set<string> {
    KeysIn(PolicyReports, rs)
  }

  function DeletionEvents(rs: seq<Report>, twice: bool): seq<Event> {
    if |rs| == 0 then []
    else [Deleted(rs[0])] + (if twice then [DeletedObject(Marshal(rs[0]))] else []) + DeletionEvents(rs[1..], twice)
  }

  lemma OneDropped(res: Resource, r: Report)
    ensures KeysIn(res, [r]) == {KeyIn(res, r)}
    ensures DeletionEvents([r], false) == [Deleted(r)]
    ensures DeletionEvents([r], true) == [Deleted(r), DeletedObject(Marshal(r))]
  {
    assert r in [r];
  }

  function ApplyIn(res: Resource, st: State, e: Effect): State {
    match e
    case Nothing => st
    case Wrote(_, r, modified) => State(st.db[KeyIn(res, r) := StoredIn(res, r, modified)], st.log + [Added(r)])
    case Phantom(r) => State(st.db, st.log + [Added(r)])
    case Dropped(rs, twice) => State(st.db - KeysIn(res, rs), st.log + DeletionEvents(rs, twice))
  }

  function Apply(st: State, e: Effect): State {
    ApplyIn(PolicyReports, st, e)
  }

  // ----- Reading the store -----

  datatype Fetch = Fetched(report: Report) | NotFetched(cause: Cause)

  function FetchUnder(db: Db, key: string): Fetch {
    if key !in db then NotFetched(Missing)
    else
      match Unmarshal(db[key].data, ZERO_REPORT)
      case None => NotFetched(Undecodable)
      case Some(r) => Fetched(r)
  }

  function GetReport(db: Db, name: string, namespace: string): Fetch {
    FetchUnder(db, Key(V1ALPHA2, name, namespace))
  }

  function SelectorOf(selector: Option<Selector>): Selector {
    match selector
    case None => (_: Labels) => true
    case Some(s) => s
  }

  function ListReports(db: Db, selector: Option<Selector>, order: seq<string>): Option<seq<Report>>
    requires forall k :: k in order ==> k in db
  {
    var vals := ValuesAt(db, order);
    if AllJson(vals) then Some(Select(Items(vals), SelectorOf(selector))) else None
  }

  predicate IsDryRun(dryRun: seq<string>) {
    "All" in dryRun
  }

  // ----- The local part of each handler: what it decides between two calls to the store -----

  /** Either an answer, or a report to go on to the store with. */
  datatype Plan = Answer(response: Response) | Proceed(report: Report)

  function DefaultNamespace(r: Report, namespace: string): Report {
    if |r.namespace| == 0 then r.(namespace := namespace) else r
  }

  function PlanCreate(q: Request): Plan
    requires q.Create?
  {
    if !q.valid && q.fieldValidation == "Strict" then Answer(Failed(Invalid))
    else if q.obj.OtherObject? then Answer(Failed(BadRequest(WrongKind)))
    else
      var r := DefaultNamespace(q.obj.report, q.namespace);
      if IsDryRun(q.dryRun) then Answer(Accepted(r))
      else Proceed(r.(resourceVersion := FormatInt(1), uid := q.uid, created := q.created))
  }

  function PlanUpdate(q: Request, fetch: Fetch): Plan
    requires q.Update? && !q.force
  {
    match fetch
    case NotFetched(cause) => Answer(Failed(FetchFailed(cause)))
    case Fetched(present) =>
      match q.transform(Some(present))
      case None => Answer(Failed(NotTransformed))
      case Some(obj) =>
        if !q.validUpdate(obj, present) && q.fieldValidation == "Strict" then Answer(Failed(Invalid))
        else if obj.OtherObject? then Answer(Failed(BadRequest(WrongKind)))
        else
          var r := DefaultNamespace(obj.report, q.namespace);
          if IsDryRun(q.dryRun) then Answer(Accepted(r)) else Proceed(r)
  }

  /** A forced update ignores fetch errors, validation and dry-run; without an object it panics. */
  function PlanForced(transform: Option<Report> -> Option<Object>, fetch: Fetch): Plan {
    match transform(if fetch.Fetched? then Some(fetch.report) else None)
    case Some(ReportObject(r)) => Proceed(r.(resourceVersion := "1"))
    case _ => Answer(Panicked)
  }

  /** The version that an update writes follows the one it read just before. */
  function PlanBump(r: Report, fetch: Fetch): Plan {
    match fetch
    case NotFetched(cause) => Answer(Failed(BadRequest(cause)))
    case Fetched(present) =>
      match ParseInt(present.resourceVersion)
      case None => Answer(Failed(BadRequest(BadVersion)))
      case Some(v) => Proceed(r.(resourceVersion := FormatInt(Successor(v))))
  }

  function PlanDelete(validDelete: Report -> bool, dryRun: seq<string>, fetch: Fetch): Plan {
    match fetch
    case NotFetched(_) => Answer(Failed(NotFound))
    case Fetched(present) =>
      if !validDelete(present) then Answer(Failed(BadRequest(Rejected)))
      else if IsDryRun(dryRun) then Answer(Removed(Marshal(present)))
      else if ParseInt(present.resourceVersion) == None then Answer(Failed(BadRequest(BadVersion)))
      else Proceed(present)
  }

  // ----- The handlers -----

  function HandleGet(db: Db, q: Request): Outcome
    requires q.Get?
  {
    match GetReport(db, q.name, q.namespace)
    case Fetched(r) => Outcome(Nothing, Accepted(r))
    case NotFetched(_) => Outcome(Nothing, Failed(NotFound))
  }

  function HandleList(db: Db, q: Request, order: seq<string>): Outcome
    requires q.List?
    requires forall k :: k in order ==> k in db
  {
    match ListReports(db, q.selector, order)
    case None => Outcome(Nothing, Failed(BadRequest(NotListed)))
    case Some(items) => Outcome(Nothing, Listed(items))
  }

  function HandleCreate(db: Db, q: Request): Outcome
    requires q.Create?
  {
    match PlanCreate(q)
    case Answer(response) => Outcome(Nothing, response)
    case Proceed(r) =>
      if KeyOf(r) in db then Outcome(Nothing, Failed(BadRequest(Refused)))
      else Outcome(Wrote(Fresh, r, q.modified), Accepted(r))
  }

  function HandleUpdate(db: Db, q: Request): Outcome
    requires q.Update? && !q.force
  {
    match PlanUpdate(q, GetReport(db, q.name, q.namespace))
    case Answer(response) => Outcome(Nothing, response)
    case Proceed(r) =>
      match PlanBump(r, GetReport(db, r.name, r.namespace))
      case Answer(response) => Outcome(Nothing, response)
      case Proceed(bumped) =>
        if KeyOf(bumped) in db then Outcome(Wrote(Bump, bumped, q.modified), Accepted(bumped))
        else Outcome(Nothing, Failed(BadRequest(Refused)))
  }

  function HandleForced(res: Resource, db: Db, name: string, namespace: string,
                        transform: Option<Report> -> Option<Object>, modified: int): Outcome
  {
    match PlanForced(transform, FetchUnder(db, KeyFor(res, name, namespace)))
    case Answer(response) => Outcome(Nothing, response)
    case Proceed(r) =>
      Outcome(if KeyIn(res, r) in db then Wrote(Reset, r, modified) else Phantom(r), Accepted(r))
  }

  function HandleDelete(res: Resource, db: Db, name: string, namespace: string, validDelete: Report -> bool,
                        dryRun: seq<string>): Outcome
  {
    match PlanDelete(validDelete, dryRun, FetchUnder(db, KeyFor(res, name, namespace)))
    case Answer(response) => Outcome(Nothing, response)
    case Proceed(r) =>
      if KeyIn(res, r) in db then Outcome(Dropped([r], false), Removed(Marshal(r)))
      else Outcome(Nothing, Failed(BadRequest(Refused)))
  }

  /** The collection loop, which dry-run skips: what it deleted, and whether it got through. */
  function DeleteItems(res: Resource, db: Db, items: seq<Report>, namespace: string, validDelete: Report -> bool)
    : (seq<Report>, bool)
  {
    if |items| == 0 then ([], true)
    else
      match PlanDelete(validDelete, [], FetchUnder(db, KeyFor(res, items[0].name, namespace)))
      case Answer(_) => ([], false)
      case Proceed(r) =>
        if KeyIn(res, r) in db then
          var rest := DeleteItems(res, db - {KeyIn(res, r)}, items[1..], namespace, validDelete);
          ([r] + rest.0, rest.1)
        else ([], false)
  }

  function HandleCollection(res: Resource, db: Db, namespace: string, validDelete: Report -> bool, dryRun: seq<string>,
                            selector: Option<Selector>, order: seq<string>): Outcome
    requires forall k :: k in order ==> k in db
  {
    match ListReports(db, selector, order)
    case None => Outcome(Nothing, Failed(BadRequest(NotListed)))
    case Some(items) =>
      if IsDryRun(dryRun) then Outcome(Nothing, Listed(items))
      else
        var done := DeleteItems(res, db, items, namespace, validDelete);
        Outcome(Dropped(done.0, true), if done.1 then Listed(items) else Failed(BadRequest(NotDeleted)))
  }

  predicate Lists(q: Request) {
    q.List? || q.DeleteCollection?
  }

  /** `order` is a walk that the database may take for this request. */
  ghost predicate Walk(db: Db, q: Request, order: seq<string>) {
    Lists(q) ==> Enumerates(order, db, KeyForList(V1ALPHA2, q.namespace))
  }

  function Handle(db: Db, q: Request, order: seq<string>): Outcome
    requires Lists(q) ==> forall k :: k in order ==> k in db
  {
    match q
    case Get(_, _) => HandleGet(db, q)
    case List(_, _) => HandleList(db, q, order)
    case Create(_, _, _, _, _, _, _, _) => HandleCreate(db, q)
    case Update(name, ns, transform, _, force, _, _, modified) =>
      if force then HandleForced(PolicyReports, db, name, ns, transform, modified) else HandleUpdate(db, q)
    case Delete(name, ns, validDelete, dryRun) => HandleDelete(PolicyReports, db, name, ns, validDelete, dryRun)
    case DeleteCollection(ns, validDelete, dryRun, selector) =>
      HandleCollection(PolicyReports, db, ns, validDelete, dryRun, selector, order)
  }
}

/**
  The cluster report store, which keeps its entries in the same database under
  cluster keys.  Its create writes with the database's update call.
 */
module Cluster {
  import opened Wrappers
  import opened Keys
  import opened Decimal
  import opened Codec
  import opened InMemory
  import opened Listing
  import opened Handlers
  import opened Store

  /** What creating and updating stamp a report with, and the database's own clock. */
  datatype Stamp = Stamp(uid: string, created: Time, modified: int)

  datatype ClusterRequest =
    | GetCluster(name: string)
    | ListCluster(selector: Option<Selector>)
    | CreateCluster(obj: Object, valid: bool, fieldValidation: string, dryRun: seq<string>, stamp: Stamp)
    | UpdateCluster(name: string, transform: Option<Report> -> Option<Object>, validUpdate: (Object, Report) -> bool,
                    force: bool, fieldValidation: string, dryRun: seq<string>, stamp: Stamp)
    | DeleteCluster(name: string, validDelete: Report -> bool, dryRun: seq<string>)
    | DeleteClusterCollection(validDelete: Report -> bool, dryRun: seq<string>, selector: Option<Selector>)

  function GetClusterReport(db: Db, name: string): Fetch {
    FetchUnder(db, ClusterKey(V1ALPHA2, name))
  }

  function Stamped(r: Report, stamp: Stamp): Report {
    r.(resourceVersion := FormatInt(1), uid := stamp.uid, created := stamp.created)
  }

  /** Creating overwrites an entry that is there, and is refused when it is not. */
  function Recreate(db: Db, r: Report, stamp: Stamp): Outcome {
    var r' := Stamped(r, stamp);
    if KeyIn(ClusterPolicyReports, r') in db then Outcome(Wrote(Reset, r', stamp.modified), Accepted(r'))
    else Outcome(Nothing, Failed(BadRequest(Refused)))
  }

  function HandleCreateCluster(db: Db, q: ClusterRequest): Outcome
    requires q.CreateCluster?
  {
    if !q.valid && q.fieldValidation == "Strict" then Outcome(Nothing, Failed(Invalid))
    else if q.obj.OtherObject? then Outcome(Nothing, Failed(BadRequest(WrongKind)))
    else if IsDryRun(q.dryRun) then Outcome(Nothing, Accepted(q.obj.report))
    else Recreate(db, q.obj.report, q.stamp)
  }

  function HandleUpdateCluster(db: Db, q: ClusterRequest): Outcome
    requires q.UpdateCluster? && !q.force
  {
    match GetClusterReport(db, q.name)
    case NotFetched(cause) => Outcome(Nothing, Failed(FetchFailed(cause)))
    case Fetched(present) =>
      match q.transform(Some(present))
      case None => Outcome(Nothing, Failed(NotTransformed))
      case Some(obj) =>
        if !q.validUpdate(obj, present) && q.fieldValidation == "Strict" then Outcome(Nothing, Failed(Invalid))
        else if obj.OtherObject? then Outcome(Nothing, Failed(BadRequest(WrongKind)))
        else if IsDryRun(q.dryRun) then Outcome(Nothing, Accepted(obj.report))
        else Recreate(db, obj.report, q.stamp)
  }

  predicate ListsCluster(q: ClusterRequest) {
    q.ListCluster? || q.DeleteClusterCollection?
  }

  ghost predicate ClusterWalk(db: Db, q: ClusterRequest, order: seq<string>) {
    ListsCluster(q) ==> Enumerates(order, db, ClusterKeyForList(V1ALPHA2))
  }

  function HandleCluster(db: Db, q: ClusterRequest, order: seq<string>): Outcome
    requires ListsCluster(q) ==> forall k :: k in order ==> k in db
  {
    match q
    case GetCluster(name) => (
      match GetClusterReport(db, name)
      case Fetched(r) => Outcome(Nothing, Accepted(r))
      case NotFetched(_) => Outcome(Nothing, Failed(NotFound)))
    case ListCluster(selector) => (
      match ListReports(db, selector, order)
      case None => Outcome(Nothing, Failed(BadRequest(NotListed)))
      case Some(items) => Outcome(Nothing, Listed(items)))
    case CreateCluster(_, _, _, _, _) => HandleCreateCluster(db, q)
    case UpdateCluster(name, transform, _, force, _, _, stamp) =>
      if force then HandleForced(ClusterPolicyReports, db, name, "", transform, stamp.modified)
      else HandleUpdateCluster(db, q)
    case DeleteCluster(name, validDelete, dryRun) =>
      HandleDelete(ClusterPolicyReports, db, name, "", validDelete, dryRun)
    case DeleteClusterCollection(validDelete, dryRun, selector) =>
      HandleCollection(ClusterPolicyReports, db, "", validDelete, dryRun, selector, order)
  }

  class CpolrStore {
    const store: InMemoryDb
    var log: seq<Event>

    constructor (store: InMemoryDb)
      ensures this.store == store && log == []
    {
      this.store := store;
      log := [];
    }

    ghost function Now(): State
      reads this, store
    {
      State(store.db, log)
    }

    method Broadcast(event: Event)
      modifies this`log
      ensures log == old(log) + [event]
    {
      log := log + [event];
    }

    method GetCpolr(name: string) returns (report: PolicyReport?, cause: Cause)
      ensures match GetClusterReport(store.db, name)
              case Fetched(r) => report != null && fresh(report) && report.Value() == r
              case NotFetched(c) => report == null && cause == c
    {
      report, cause := null, Missing;
      var val := store.Get(ClusterKey(V1ALPHA2, name));
      if val.Some? {
        var decoded := Unmarshal(val.value.data, ZERO_REPORT);
        if decoded == None {
          return null, Undecodable;
        }
        report := new PolicyReport(decoded.value);
      }
    }

    /** Stamps a report as new, then writes it over the entry that must already be there. */
    method CreateCpolr(report: PolicyReport, stamp: Stamp) returns (err: Option<Cause>)
      modifies report, store
      ensures report.Value() == Stamped(old(report.Value()), stamp)
      ensures err == if KeyIn(ClusterPolicyReports, report.Value()) in old(store.db) then None else Some(Refused)
      ensures var key, val := KeyIn(ClusterPolicyReports, report.Value()),
                              StoredIn(ClusterPolicyReports, report.Value(), stamp.modified);
              store.db == if err == None then old(store.db)[key := val] else old(store.db)
    {
      var key := ClusterKey(V1ALPHA2, report.name);
      report.resourceVersion := FormatInt(1);
      report.uid := stamp.uid;
      report.created := stamp.created;
      var refused := store.Update(key, 1, Json(Marshal(report.Value())), stamp.modified);
      err := if refused == None then None else Some(Refused);
    }

    method Create(obj: PolicyReport?, valid: bool, fieldValidation: string, dryRun: seq<string>, stamp: Stamp)
      returns (response: Response)
      modifies this`log, store, obj
      ensures var q := CreateCluster(old(ObjectOf(obj)), valid, fieldValidation, dryRun, stamp);
              var outcome := HandleCreateCluster(old(store.db), q);
              response == outcome.response && Now() == ApplyIn(ClusterPolicyReports, old(Now()), outcome.effect)
    {
      if !valid && fieldValidation == "Strict" {
        return Failed(Invalid);
      }
      if obj == null {
        return Failed(BadRequest(WrongKind));
      }
      if !IsDryRun(dryRun) {
        var err := CreateCpolr(obj, stamp);
        if err.Some? {
          return Failed(BadRequest(err.value));
        }
        Broadcast(Added(obj.Value()));
      }
      response := Accepted(obj.Value());
    }

    /** The forced branch of Update, which does not stamp the report as new. */
    method UpdateForced(name: string, transform: Option<Report> -> Option<Object>, modified: int)
      returns (response: Response)
      modifies this`log, store
      ensures var outcome := HandleForced(ClusterPolicyReports, old(store.db), name, "", transform, modified);
              response == outcome.response && Now() == ApplyIn(ClusterPolicyReports, old(Now()), outcome.effect)
    {
      var present, _ := GetCpolr(name);
      var forced := transform(if present == null then None else Some(present.Value()));
      if forced == None || forced.value.OtherObject? {
        return Panicked;
      }
      var report := new PolicyReport(forced.value.report);
      report.resourceVersion := "1";
      var _ := store.Update(ClusterKey(V1ALPHA2, report.name), 1, Json(Marshal(report.Value())), modified);
      Broadcast(Added(report.Value()));
      response := Accepted(report.Value());
    }

    method Update(name: string, transform: Option<Report> -> Option<Object>, validUpdate: (Object, Report) -> bool,
                  force: bool, fieldValidation: string, dryRun: seq<string>, stamp: Stamp)
      returns (response: Response)
      modifies this`log, store
      ensures var q := UpdateCluster(name, transform, validUpdate, force, fieldValidation, dryRun, stamp);
              var outcome := HandleCluster(old(store.db), q, []);
              response == outcome.response && Now() == ApplyIn(ClusterPolicyReports, old(Now()), outcome.effect)
    {
      if force {
        response := UpdateForced(name, transform, stamp.modified);
        return;
      }
      var present, cause := GetCpolr(name);
      if present == null {
        return Failed(FetchFailed(cause));
      }
      var updated := transform(Some(present.Value()));
      if updated == None {
        return Failed(NotTransformed);
      }
      if !validUpdate(updated.value, present.Value()) && fieldValidation == "Strict" {
        return Failed(Invalid);
      }
      if updated.value.OtherObject? {
        return Failed(BadRequest(WrongKind));
      }
      var report := new PolicyReport(updated.value.report);
      if !IsDryRun(dryRun) {
        var err := CreateCpolr(report, stamp);
        if err.Some? {
          return Failed(BadRequest(err.value));
        }
        Broadcast(Added(report.Value()));
      }
      response := Accepted(report.Value());
    }

    method Delete(name: string, validDelete: Report -> bool, dryRun: seq<string>) returns (response: Response)
      modifies this`log, store
      ensures var outcome := HandleDelete(ClusterPolicyReports, old(store.db), name, "", validDelete, dryRun);
              response == outcome.response && Now() == ApplyIn(ClusterPolicyReports, old(Now()), outcome.effect)
    {
      var report, _ := GetCpolr(name);
      if report == null {
        return Failed(NotFound);
      }
      if !validDelete(report.Value()) {
        return Failed(BadRequest(Rejected));
      }
      if !IsDryRun(dryRun) {
        var revision := ParseInt(report.resourceVersion);
        if revision == None {
          return Failed(BadRequest(BadVersion));
        }
        var refused := store.Delete(ClusterKey(V1ALPHA2, report.name), revision.value);
        if refused.Some? {
          return Failed(BadRequest(Refused));
        }
        Broadcast(Deleted(report.Value()));
        OneDropped(ClusterPolicyReports, report.Value());
      }
      response := Removed(Marshal(report.Value()));
    }

    method Get(name: string) returns (response: Response)
      ensures response == HandleCluster(store.db, GetCluster(name), []).response
    {
      var report, _ := GetCpolr(name);
      if report == null {
        return Failed(NotFound);
      }
      response := Accepted(report.Value());
    }

    method List(selector: Option<Selector>) returns (response: Response, ghost order: seq<string>)
      ensures Enumerates(order, store.db, ClusterKeyForList(V1ALPHA2))
      ensures response == HandleCluster(store.db, ListCluster(selector), order).response
      ensures response.Listed? || response == Failed(BadRequest(NotListed))
    {
      var vals;
      vals, order := store.List(ClusterKeyForList(V1ALPHA2));
      var list := DecodeAll(vals);
      if list == None {
        return Failed(BadRequest(NotListed)), order;
      }
      ghost var shown := Views(list.value);
      var items := SelectItems(list.value, SelectorOf(selector));
      assert forall i :: 0 <= i < |shown| ==> View(list.value[i]) == shown[i];
      assert Views(list.value) == shown;
      response := Listed(Views(items));
    }

    /** One turn of the loop of DeleteCollection. */
    method DeleteItem(name: string, validDelete: Report -> bool, dryRun: seq<string>) returns (deleted: bool)
      modifies this`log, store
      ensures var outcome := HandleDelete(ClusterPolicyReports, old(store.db), name, "", validDelete, dryRun);
              deleted == outcome.response.Removed? && Now() == AfterItem(ClusterPolicyReports, old(Now()), outcome)
    {
      var one := Delete(name, validDelete, dryRun);
      deleted := one.Removed?;
      if deleted {
        Broadcast(DeletedObject(one.fields));
      }
    }

    /** The loop of DeleteCollection; false when an item could not be deleted. */
    method DeleteEach(items: seq<Report>, validDelete: Report -> bool, dryRun: seq<string>) returns (through: bool)
      requires !IsDryRun(dryRun)
      modifies this`log, store
      ensures var all := DeleteItems(ClusterPolicyReports, old(store.db), items, "", validDelete);
              Now() == ApplyIn(ClusterPolicyReports, old(Now()), Dropped(all.0, true)) && through == all.1
    {
      ghost var st := Now();
      var i := 0;
      SweepIsDrop(ClusterPolicyReports, st, items, "", validDelete, dryRun);
      while i < |items|
        invariant 0 <= i <= |items|
        invariant Sweep(ClusterPolicyReports, Now(), items[i..], "", validDelete, dryRun) ==
                  Sweep(ClusterPolicyReports, st, items, "", validDelete, dryRun)
      {
        SweepTurn(ClusterPolicyReports, Now(), items, i, "", validDelete, dryRun);
        through := DeleteItem(items[i].name, validDelete, dryRun);
        if !through {
          return;
        }
        i := i + 1;
      }
      through := true;
    }

    method DeleteCollection(validDelete: Report -> bool, dryRun: seq<string>, selector: Option<Selector>)
      returns (response: Response, ghost order: seq<string>)
      modifies this`log, store
      ensures Enumerates(order, old(store.db), ClusterKeyForList(V1ALPHA2))
      ensures var outcome := HandleCollection(ClusterPolicyReports, old(store.db), "", validDelete, dryRun, selector,
                                              order);
              response == outcome.response && Now() == ApplyIn(ClusterPolicyReports, old(Now()), outcome.effect)
    {
      response, order := List(selector);
      if response.Failed? {
        return Failed(BadRequest(NotListed)), order;
      }
      var items := response.items;
      if !IsDryRun(dryRun) {
        var through := DeleteEach(items, validDelete, dryRun);
        if !through {
          return Failed(BadRequest(NotDeleted)), order;
        }
      }
    }
  }
}

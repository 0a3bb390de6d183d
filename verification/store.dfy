/**
  The namespaced report store as the program runs it: handlers that read and
  change the database, assign report fields and append to the watch log.  Each
  handler is proved to have the effect and the response that module Handlers gives it.
 */
module Store {
  import opened Wrappers
  import opened Keys
  import opened Decimal
  import opened Codec
  import opened InMemory
  import opened Listing
  import opened Handlers

  /** A report that handlers share by reference and fill in. */
  class PolicyReport {
    var name: string
    var namespace: string
    var uid: string
    var resourceVersion: string
    var created: Time
    var labels: Option<Labels>
    var body: string

    constructor (r: Report)
      ensures Value() == r
    {
      name, namespace, uid, resourceVersion := r.name, r.namespace, r.uid, r.resourceVersion;
      created, labels, body := r.created, r.labels, r.body;
    }

    function Value(): Report
      reads this
    {
      Report(name, namespace, uid, resourceVersion, created, labels, body)
    }
  }

  /** A null reference stands for an object of another kind. */
  function ObjectOf(obj: PolicyReport?): Object
    reads obj
  {
    if obj == null then OtherObject else ReportObject(obj.Value())
  }

  lemma {:induction false} DeletionEventsJoin(a: seq<Report>, b: seq<Report>, twice: bool)
    ensures DeletionEvents(a + b, twice) == DeletionEvents(a, twice) + DeletionEvents(b, twice)
  {
    if |a| == 0 {
      assert a + b == b;
    } else {
      assert (a + b)[0] == a[0] && (a + b)[1..] == a[1..] + b;
      DeletionEventsJoin(a[1..], b, twice);
    }
  }

  lemma KeysInJoin(res: Resource, a: seq<Report>, b: seq<Report>)
    ensures KeysIn(res, a + b) == KeysIn(res, a) + KeysIn(res, b)
  {
  }

  lemma MinusMinus(db: Db, a: set<string>, b: set<string>)
    ensures (db - a) - b == db - (a + b)
  {
  }

  lemma DropNone(res: Resource, st: State)
    ensures ApplyIn(res, st, Dropped([], true)) == st
  {
  }

  /** Dropping reports in two goes is dropping them in one. */
  lemma DropJoin(res: Resource, st: State, a: seq<Report>, b: seq<Report>, twice: bool)
    ensures ApplyIn(res, ApplyIn(res, st, Dropped(a, twice)), Dropped(b, twice)) ==
            ApplyIn(res, st, Dropped(a + b, twice))
  {
    DeletionEventsJoin(a, b, twice);
    KeysInJoin(res, a, b);
    MinusMinus(st.db, KeysIn(res, a), KeysIn(res, b));
    assert st.log + DeletionEvents(a, twice) + DeletionEvents(b, twice) == st.log + DeletionEvents(a + b, twice);
  }

  // ----- The loop of DeleteCollection, which both stores have -----

  /** The head of the collection loop: Delete and the loop's specification fetch and remove the same report. */
  lemma LoopHead(res: Resource, db: Db, items: seq<Report>, namespace: string, validDelete: Report -> bool,
                 dryRun: seq<string>)
    returns (r: Report)
    requires |items| > 0 && !IsDryRun(dryRun)
    ensures var outcome := HandleDelete(res, db, items[0].name, namespace, validDelete, dryRun);
            var left := DeleteItems(res, db, items, namespace, validDelete);
            if outcome.response.Removed? then
              var rest := DeleteItems(res, db - {KeyIn(res, r)}, items[1..], namespace, validDelete);
              outcome == Outcome(Dropped([r], false), Removed(Marshal(r))) && left == ([r] + rest.0, rest.1)
            else outcome.effect == Nothing && left == ([], false)
  {
    var fetch := FetchUnder(db, KeyFor(res, items[0].name, namespace));
    r := if fetch.Fetched? then fetch.report else ZERO_REPORT;
  }

  /** The state after one turn of the collection loop, which announces what Delete returned once more. */
  function AfterItem(res: Resource, st: State, outcome: Outcome): State {
    var after := ApplyIn(res, st, outcome.effect);
    if outcome.response.Removed? then State(after.db, after.log + [DeletedObject(outcome.response.fields)]) else after
  }

  lemma TurnRemoves(res: Resource, st: State, r: Report)
    ensures AfterItem(res, st, Outcome(Dropped([r], false), Removed(Marshal(r)))) ==
            ApplyIn(res, st, Dropped([r], true))
  {
    OneDropped(res, r);
    assert st.log + [Deleted(r)] + [DeletedObject(Marshal(r))] == st.log + [Deleted(r), DeletedObject(Marshal(r))];
  }

  /** The loop over `items`, turn by turn: the state it leaves, and whether it got through. */
  function Sweep(res: Resource, st: State, items: seq<Report>, namespace: string, validDelete: Report -> bool,
                 dryRun: seq<string>): (State, bool)
    decreases |items|
  {
    if |items| == 0 then (st, true)
    else
      var outcome := HandleDelete(res, st.db, items[0].name, namespace, validDelete, dryRun);
      var after := AfterItem(res, st, outcome);
      if outcome.response.Removed? then Sweep(res, after, items[1..], namespace, validDelete, dryRun)
      else (after, false)
  }

  /** The loop does what `DeleteItems` says, in one go. */
  lemma {:induction false} SweepIsDrop(res: Resource, st: State, items: seq<Report>, namespace: string,
                                       validDelete: Report -> bool, dryRun: seq<string>)
    requires !IsDryRun(dryRun)
    ensures var all := DeleteItems(res, st.db, items, namespace, validDelete);
            Sweep(res, st, items, namespace, validDelete, dryRun) == (ApplyIn(res, st, Dropped(all.0, true)), all.1)
    decreases |items|
  {
    DropNone(res, st);
    if |items| > 0 {
      var r := LoopHead(res, st.db, items, namespace, validDelete, dryRun);
      if HandleDelete(res, st.db, items[0].name, namespace, validDelete, dryRun).response.Removed? {
        var after := ApplyIn(res, st, Dropped([r], true));
        TurnRemoves(res, st, r);
        OneDropped(res, r);
        SweepIsDrop(res, after, items[1..], namespace, validDelete, dryRun);
        DropJoin(res, st, [r], DeleteItems(res, after.db, items[1..], namespace, validDelete).0, true);
      }
    }
  }

  /** The loop from item `i` on is one turn and the loop from the next item on. */
  lemma SweepTurn(res: Resource, st: State, items: seq<Report>, i: nat, namespace: string, validDelete: Report -> bool,
                  dryRun: seq<string>)
    requires i < |items|
    ensures var outcome := HandleDelete(res, st.db, items[i].name, namespace, validDelete, dryRun);
            Sweep(res, st, items[i..], namespace, validDelete, dryRun) ==
            if outcome.response.Removed? then
              Sweep(res, AfterItem(res, st, outcome), items[i + 1..], namespace, validDelete, dryRun)
            else (AfterItem(res, st, outcome), false)
  {
    assert items[i..][0] == items[i] && items[i..][1..] == items[i + 1..];
  }

  class PolrStore {
    const store: InMemoryDb
    /** The events broadcast so far, oldest first. */
    var log: seq<Event>

    constructor (store: InMemoryDb)
      ensures this.store == store && log == []
    {
      this.store := store;
      log := [];
    }

    ghost function Now(): State
      reads this, store
    {
      State(store.db, log)
    }

    method Broadcast(event: Event)
      modifies this`log
      ensures log == old(log) + [event]
    {
      log := log + [event];
    }

    method GetPolr(name: string, namespace: string) returns (report: PolicyReport?, cause: Cause)
      ensures match GetReport(store.db, name, namespace)
              case Fetched(r) => report != null && fresh(report) && report.Value() == r
              case NotFetched(c) => report == null && cause == c
    {
      report, cause := null, Missing;
      var val := store.Get(Key(V1ALPHA2, name, namespace));
      if val.Some? {
        var decoded := Unmarshal(val.value.data, ZERO_REPORT);
        if decoded == None {
          return null, Undecodable;
        }
        report := new PolicyReport(decoded.value);
      }
    }

    method ListPolr(namespace: string) returns (res: Option<seq<ReportStruct>>, ghost order: seq<string>)
      ensures res.Some? <==>
              forall k :: k in store.db && KeyForList(V1ALPHA2, namespace) <= k ==> store.db[k].data.Json?
      ensures Enumerates(order, store.db, KeyForList(V1ALPHA2, namespace))
      ensures res.Some? <==> AllJson(ValuesAt(store.db, order))
      ensures res.Some? ==> Views(res.value) == Items(ValuesAt(store.db, order))
    {
      var vals;
      vals, order := store.List(KeyForList(V1ALPHA2, namespace));
      res := DecodeAll(vals);
      assert forall i :: 0 <= i < |order| ==> order[i] in order && vals[i] in vals;
    }

    method CreatePolr(report: PolicyReport, uid: string, created: Time, modified: int) returns (err: Option<Cause>)
      modifies report, store
      ensures report.Value() == old(report.Value()).(resourceVersion := FormatInt(1), uid := uid, created := created)
      ensures err == if KeyOf(report.Value()) in old(store.db) then Some(Refused) else None
      ensures store.db == if err == None
                          then old(store.db)[KeyOf(report.Value()) := Stored(report.Value(), modified)]
                          else old(store.db)
    {
      var key := Key(V1ALPHA2, report.name, report.namespace);
      report.resourceVersion := FormatInt(1);
      report.uid := uid;
      report.created := created;
      var refused := store.Create(key, Json(Marshal(report.Value())), modified);
      err := if refused == None then None else Some(Refused);
    }

    /** Not forced: reads the stored version again, and writes the one that follows it. */
    method UpdatePolr(report: PolicyReport, force: bool, modified: int) returns (err: Option<Cause>)
      modifies report, store
      ensures force ==>
                && report.Value() == old(report.Value()).(resourceVersion := "1")
                && err == if KeyOf(report.Value()) in old(store.db) then None else Some(Refused)
      ensures !force ==>
                match PlanBump(old(report.Value()), GetReport(old(store.db), old(report.name), old(report.namespace)))
                case Answer(response) => err.Some? && response == Failed(BadRequest(err.value))
                case Proceed(r) =>
                  && report.Value() == r
                  && err == if KeyOf(r) in old(store.db) then None else Some(Refused)
      ensures store.db == if err == None
                          then old(store.db)[KeyOf(report.Value()) := Stored(report.Value(), modified)]
                          else old(store.db)
    {
      var key := Key(V1ALPHA2, report.name, report.namespace);
      if !force {
        var present, cause := GetPolr(report.name, report.namespace);
        if present == null {
          return Some(cause);
        }
        var version := ParseInt(present.resourceVersion);
        if version == None {
          return Some(BadVersion);
        }
        report.resourceVersion := FormatInt(Successor(version.value));
      } else {
        report.resourceVersion := "1";
      }
      var revision := ParseInt(report.resourceVersion);
      var refused := store.Update(key, if revision == None then 0 else revision.value,
                                  Json(Marshal(report.Value())), modified);
      err := if refused == None then None else Some(Refused);
    }

    method DeletePolr(report: PolicyReport) returns (err: Option<Cause>)
      modifies store
      ensures err == if ParseInt(report.resourceVersion) == None then Some(BadVersion)
                     else if KeyOf(report.Value()) in old(store.db) then None else Some(Refused)
      ensures store.db == if err == None then old(store.db) - {KeyOf(report.Value())} else old(store.db)
    {
      var revision := ParseInt(report.resourceVersion);
      if revision == None {
        return Some(BadVersion);
      }
      var refused := store.Delete(Key(V1ALPHA2, report.name, report.namespace), revision.value);
      err := if refused == None then None else Some(Refused);
    }

    method Get(name: string, namespace: string) returns (response: Response)
      ensures response == HandleGet(store.db, Request.Get(name, namespace)).response
    {
      var report, _ := GetPolr(name, namespace);
      if report == null {
        return Failed(NotFound);
      }
      response := Accepted(report.Value());
    }

    method List(namespace: string, selector: Option<Selector>) returns (response: Response, ghost order: seq<string>)
      ensures response.Listed? <==>
              forall k :: k in store.db && KeyForList(V1ALPHA2, namespace) <= k ==> store.db[k].data.Json?
      ensures Enumerates(order, store.db, KeyForList(V1ALPHA2, namespace))
      ensures response == HandleList(store.db, Request.List(namespace, selector), order).response
    {
      var list;
      list, order := ListPolr(namespace);
      if list == None {
        return Failed(BadRequest(NotListed)), order;
      }
      ghost var shown := Views(list.value);
      var items := SelectItems(list.value, SelectorOf(selector));
      assert forall i :: 0 <= i < |shown| ==> View(list.value[i]) == shown[i];
      assert Views(list.value) == shown;
      response := Listed(Views(items));
    }

    method Create(namespace: string, obj: PolicyReport?, valid: bool, fieldValidation: string, dryRun: seq<string>,
                  uid: string, created: Time, modified: int)
      returns (response: Response)
      modifies this`log, store, obj
      ensures var q := Request.Create(namespace, old(ObjectOf(obj)), valid, fieldValidation, dryRun, uid, created,
                                      modified);
              var outcome := HandleCreate(old(store.db), q);
              response == outcome.response && Now() == Apply(old(Now()), outcome.effect)
    {
      if !valid && fieldValidation == "Strict" {
        return Failed(Invalid);
      }
      if obj == null {
        return Failed(BadRequest(WrongKind));
      }
      if |obj.namespace| == 0 {
        obj.namespace := namespace;
      }
      if !IsDryRun(dryRun) {
        var err := CreatePolr(obj, uid, created, modified);
        if err.Some? {
          return Failed(BadRequest(err.value));
        }
        Broadcast(Added(obj.Value()));
      }
      response := Accepted(obj.Value());
    }

    /** The forced branch of Update: errors of the fetch and of the write are ignored, and the event always goes out. */
    method UpdateForced(name: string, namespace: string, transform: Option<Report> -> Option<Object>, modified: int)
      returns (response: Response)
      modifies this`log, store
      ensures var outcome := HandleForced(PolicyReports, old(store.db), name, namespace, transform, modified);
              response == outcome.response && Now() == Apply(old(Now()), outcome.effect)
    {
      var present, _ := GetPolr(name, namespace);
      var forced := transform(if present == null then None else Some(present.Value()));
      if forced == None || forced.value.OtherObject? {
        return Panicked;
      }
      var report := new PolicyReport(forced.value.report);
      var _ := UpdatePolr(report, true, modified);
      Broadcast(Added(report.Value()));
      response := Accepted(report.Value());
    }

    method Update(name: string, namespace: string, transform: Option<Report> -> Option<Object>,
                  validUpdate: (Object, Report) -> bool, force: bool, fieldValidation: string, dryRun: seq<string>,
                  modified: int)
      returns (response: Response)
      modifies this`log, store
      ensures var q := Request.Update(name, namespace, transform, validUpdate, force, fieldValidation, dryRun,
                                      modified);
              var outcome :=
                if force then HandleForced(PolicyReports, old(store.db), name, namespace, transform, modified)
                else HandleUpdate(old(store.db), q);
              response == outcome.response && Now() == Apply(old(Now()), outcome.effect)
    {
      if force {
        response := UpdateForced(name, namespace, transform, modified);
        return;
      }
      var present, cause := GetPolr(name, namespace);
      if present == null {
        return Failed(FetchFailed(cause));
      }
      var updated := transform(Some(present.Value()));
      if updated == None {
        return Failed(NotTransformed);
      }
      if !validUpdate(updated.value, present.Value()) && fieldValidation == "Strict" {
        return Failed(Invalid);
      }
      if updated.value.OtherObject? {
        return Failed(BadRequest(WrongKind));
      }
      var report := new PolicyReport(updated.value.report);
      if |report.namespace| == 0 {
        report.namespace := namespace;
      }
      if !IsDryRun(dryRun) {
        var err := UpdatePolr(report, false, modified);
        if err.Some? {
          return Failed(BadRequest(err.value));
        }
        Broadcast(Added(report.Value()));
      }
      response := Accepted(report.Value());
    }

    method Delete(name: string, namespace: string, validDelete: Report -> bool, dryRun: seq<string>)
      returns (response: Response)
      modifies this`log, store
      ensures var outcome := HandleDelete(PolicyReports, old(store.db), name, namespace, validDelete, dryRun);
              response == outcome.response && Now() == Apply(old(Now()), outcome.effect)
    {
      var report, _ := GetPolr(name, namespace);
      if report == null {
        return Failed(NotFound);
      }
      if !validDelete(report.Value()) {
        return Failed(BadRequest(Rejected));
      }
      if !IsDryRun(dryRun) {
        var err := DeletePolr(report);
        if err.Some? {
          return Failed(BadRequest(err.value));
        }
        Broadcast(Deleted(report.Value()));
        OneDropped(PolicyReports, report.Value());
      }
      response := Removed(Marshal(report.Value()));
    }

    /** One turn of the loop of DeleteCollection. */
    method DeleteItem(name: string, namespace: string, validDelete: Report -> bool, dryRun: seq<string>)
      returns (deleted: bool)
      modifies this`log, store
      ensures var outcome := HandleDelete(PolicyReports, old(store.db), name, namespace, validDelete, dryRun);
              deleted == outcome.response.Removed? && Now() == AfterItem(PolicyReports, old(Now()), outcome)
    {
      var one := Delete(name, namespace, validDelete, dryRun);
      deleted := one.Removed?;
      if deleted {
        Broadcast(DeletedObject(one.fields));
      }
    }

    /** The loop of DeleteCollection; false when an item could not be deleted. */
    method DeleteEach(items: seq<Report>, namespace: string, validDelete: Report -> bool, dryRun: seq<string>)
      returns (through: bool)
      requires !IsDryRun(dryRun)
      modifies this`log, store
      ensures var all := DeleteItems(PolicyReports, old(store.db), items, namespace, validDelete);
              Now() == Apply(old(Now()), Dropped(all.0, true)) && through == all.1
    {
      ghost var st := Now();
      var i := 0;
      SweepIsDrop(PolicyReports, st, items, namespace, validDelete, dryRun);
      while i < |items|
        invariant 0 <= i <= |items|
        invariant Sweep(PolicyReports, Now(), items[i..], namespace, validDelete, dryRun) ==
                  Sweep(PolicyReports, st, items, namespace, validDelete, dryRun)
      {
        SweepTurn(PolicyReports, Now(), items, i, namespace, validDelete, dryRun);
        through := DeleteItem(items[i].name, namespace, validDelete, dryRun);
        if !through {
          return;
        }
        i := i + 1;
      }
      through := true;
    }

    method DeleteCollection(namespace: string, validDelete: Report -> bool, dryRun: seq<string>,
                            selector: Option<Selector>)
      returns (response: Response, ghost order: seq<string>)
      modifies this`log, store
      ensures Enumerates(order, old(store.db), KeyForList(V1ALPHA2, namespace))
      ensures var outcome := HandleCollection(PolicyReports, old(store.db), namespace, validDelete, dryRun, selector,
                                              order);
              response == outcome.response && Now() == Apply(old(Now()), outcome.effect)
    {
      response, order := List(namespace, selector);
      if response.Failed? {
        return Failed(BadRequest(NotListed)), order;
      }
      var items := response.items;
      if !IsDryRun(dryRun) {
        var through := DeleteEach(items, namespace, validDelete, dryRun);
        if !through {
          return Failed(BadRequest(NotDeleted)), order;
        }
      }
    }
  }
}

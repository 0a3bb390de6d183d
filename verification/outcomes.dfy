/**
  What each request comes to, written out case by case in terms of what it is
  given and what is stored: which response it gets, and what it does to the
  database and the log.
 */
module Outcomes {
  import opened Wrappers
  import opened Keys
  import opened Decimal
  import opened Codec
  import opened InMemory
  import opened Listing
  import opened Handlers
  import opened Abstraction
  import opened Calls

  /** The submitted report, in the namespace of the request if it names none itself. */
  function Placed(r: Report, namespace: string): Report {
    Report(r.name, if r.namespace == "" then namespace else r.namespace, r.uid, r.resourceVersion, r.created, r.labels,
           r.body)
  }

  /** The version text that follows a stored one, in 64-bit arithmetic. */
  function VersionAfter(text: string): string {
    match ParseInt(text)
    case None => ""
    case Some(v) => FormatInt(if v == 9223372036854775807 then -9223372036854775808 else v + 1)
  }

  function After(st: State, q: Request, order: seq<string>): State
    requires Lists(q) ==> forall k :: k in order ==> k in st.db
  {
    Apply(st, Handle(st.db, q, order).effect)
  }

  /** The request is answered so, and changes nothing. */
  ghost predicate Only(st: State, q: Request, order: seq<string>, response: Response)
    requires Lists(q) ==> forall k :: k in order ==> k in st.db
  {
    Handle(st.db, q, order).response == response && After(st, q, order) == st
  }

  /** `r` is stored under `key` and nowhere else, announced, and read back with all it says. */
  ghost predicate Landed(st: State, st': State, key: string, r: Report, modified: int) {
    && st'.db == st.db[key := Value(key, Json(Marshal(r)), modified)]
    && st'.log == st.log + [Added(r)]
    && var got := Handle(st'.db, Get(r.name, r.namespace), []).response;
       got.Accepted? && Survives(got.report, r)
  }

  lemma WritingLands(st: State, r: Report, modified: int, kind: WriteKind)
    ensures Landed(st, Apply(st, Wrote(kind, r, modified)), Key(V1ALPHA2, r.name, r.namespace), r, modified)
  {
    EncodingSurvives(r);
  }

  /** Dry-run is asked for by the one word. */
  lemma DryRunIsAll(dryRun: seq<string>)
    ensures IsDryRun(dryRun) <==> "All" in dryRun
  {
  }

  /** A get answers what is stored under the key, or that there is nothing. */
  lemma GetComesTo(st: State, q: Request)
    requires AllSound(st.db) && q.Get?
    ensures var key := Key(V1ALPHA2, q.name, q.namespace);
            Only(st, q, [], if key in st.db then Accepted(ReportAt(st.db[key])) else Failed(NotFound))
  {
    FetchIsSound(st.db, q.name, q.namespace);
  }

  /**
    A create: strict validation comes first, then the kind of the object, then
    dry-run, which stamps nothing, and last the key that must be free.
   */
  lemma CreateComesTo(st: State, q: Request)
    requires q.Create?
    ensures if !q.valid && q.fieldValidation == "Strict" then Only(st, q, [], Failed(Invalid))
            else if q.obj.OtherObject? then Only(st, q, [], Failed(BadRequest(WrongKind)))
            else
              var r := Placed(q.obj.report, q.namespace);
              var key := Key(V1ALPHA2, r.name, r.namespace);
              if "All" in q.dryRun then Only(st, q, [], Accepted(r))
              else if key in st.db then Only(st, q, [], Failed(BadRequest(Refused)))
              else
                var made := Report(r.name, r.namespace, q.uid, "1", q.created, r.labels, r.body);
                && Handle(st.db, q, []).response == Accepted(made)
                && Landed(st, After(st, q, []), key, made, q.modified)
  {
    FirstVersion();
    if q.obj.ReportObject? {
      var r := Placed(q.obj.report, q.namespace);
      WritingLands(st, Report(r.name, r.namespace, q.uid, "1", q.created, r.labels, r.body), q.modified, Fresh);
    }
  }

  /** A create changes the database or the log exactly when it is to go ahead and its key is free. */
  lemma CreateChangesExactly(st: State, q: Request)
    requires q.Create?
    ensures After(st, q, []) != st <==> Goes(q) && TargetKey(q) !in st.db
  {
    CreateComesTo(st, q);
    if Goes(q) && TargetKey(q) !in st.db {
      assert |After(st, q, []).log| == |st.log| + 1;
    }
  }

  /** What a plain update comes to once it has found the stored report `present`. */
  ghost predicate UpdateOutcome(st: State, q: Request, present: Report)
    requires q.Update?
  {
    match q.transform(Some(present))
    case None => Only(st, q, [], Failed(NotTransformed))
    case Some(obj) =>
      if !q.validUpdate(obj, present) && q.fieldValidation == "Strict" then Only(st, q, [], Failed(Invalid))
      else if obj.OtherObject? then Only(st, q, [], Failed(BadRequest(WrongKind)))
      else
        var r := Placed(obj.report, q.namespace);
        var key := Key(V1ALPHA2, r.name, r.namespace);
        if "All" in q.dryRun then Only(st, q, [], Accepted(r))
        else if key !in st.db then Only(st, q, [], Failed(BadRequest(Missing)))
        else
          var made := Report(r.name, r.namespace, r.uid, VersionAfter(ReportAt(st.db[key]).resourceVersion), r.created,
                            r.labels, r.body);
          Handle(st.db, q, []).response == Accepted(made) && Landed(st, After(st, q, []), key, made, q.modified)
  }

  lemma VersionAfterIsNext(text: string)
    requires ParseInt(text).Some?
    ensures VersionAfter(text) == FormatInt(Successor(ParseInt(text).value))
  {
    SuccessorInWords(ParseInt(text).value);
  }

  /** Where the update stops, and with what, before it looks at the entry to write. */
  lemma UpdatePlanned(q: Request, present: Report)
    requires q.Update? && !q.force
    ensures PlanUpdate(q, Fetched(present)) ==
            match q.transform(Some(present))
            case None => Answer(Failed(NotTransformed))
            case Some(obj) =>
              if !q.validUpdate(obj, present) && q.fieldValidation == "Strict" then Answer(Failed(Invalid))
              else if obj.OtherObject? then Answer(Failed(BadRequest(WrongKind)))
              else if "All" in q.dryRun then Answer(Accepted(Placed(obj.report, q.namespace)))
              else Proceed(Placed(obj.report, q.namespace))
  {
  }

  lemma UpdateGoesOn(st: State, q: Request, present: Report, r: Report)
    requires AllSound(st.db) && q.Update? && !q.force && GetReport(st.db, q.name, q.namespace) == Fetched(present)
    requires PlanUpdate(q, Fetched(present)) == Proceed(r)
    ensures var key := Key(V1ALPHA2, r.name, r.namespace);
            if key !in st.db then Only(st, q, [], Failed(BadRequest(Missing)))
            else
              var version := VersionAfter(ReportAt(st.db[key]).resourceVersion);
              var made := Report(r.name, r.namespace, r.uid, version, r.created, r.labels, r.body);
              Handle(st.db, q, []) == Outcome(Wrote(Bump, made, q.modified), Accepted(made))
  {
    FetchIsSound(st.db, r.name, r.namespace);
    if KeyOf(r) in st.db {
      VersionAfterIsNext(ReportAt(st.db[KeyOf(r)]).resourceVersion);
    }
  }

  lemma UpdateStops(st: State, q: Request, present: Report, response: Response)
    requires q.Update? && !q.force && GetReport(st.db, q.name, q.namespace) == Fetched(present)
    requires PlanUpdate(q, Fetched(present)) == Answer(response)
    ensures Only(st, q, [], response)
  {
  }

  lemma UpdateOfPresent(st: State, q: Request, present: Report)
    requires AllSound(st.db) && q.Update? && !q.force && GetReport(st.db, q.name, q.namespace) == Fetched(present)
    ensures UpdateOutcome(st, q, present)
  {
    UpdatePlanned(q, present);
    match PlanUpdate(q, Fetched(present))
    case Answer(response) => UpdateStops(st, q, present, response);
    case Proceed(r) =>
      UpdateGoesOn(st, q, present, r);
      var outcome := Handle(st.db, q, []);
      if outcome.effect.Wrote? {
        WritingLands(st, outcome.effect.report, q.modified, Bump);
      }
  }

  /**
    A plain update: the report must be stored, the transformer must yield an
    object, strict validation must accept it, and it must be a report; dry-run
    answers it unchanged; otherwise what the transformer yields is stored under its
    own key, which must be present, with the version after the one stored there.
   */
  lemma UpdateComesTo(st: State, q: Request)
    requires AllSound(st.db) && q.Update? && !q.force
    ensures var key := Key(V1ALPHA2, q.name, q.namespace);
            if key in st.db then UpdateOutcome(st, q, ReportAt(st.db[key]))
            else Only(st, q, [], Failed(FetchFailed(Missing)))
  {
    FetchIsSound(st.db, q.name, q.namespace);
    var key := Key(V1ALPHA2, q.name, q.namespace);
    if key in st.db {
      UpdateOfPresent(st, q, ReportAt(st.db[key]));
    }
  }

  /**
    A forced update, of either resource: the transformer is shown the stored
    report, or nothing when there is none that can be read; what it yields gets version 1, is always
    announced and answered, and is stored exactly when its own key is present.
   */
  lemma ForcedComesTo(res: Resource, st: State, name: string, ns: string, transform: Option<Report> -> Option<Object>,
                      modified: int)
    ensures var key := KeyFor(res, name, ns);
            var shown := if key in st.db && st.db[key].data.Json? then Some(ReportAt(st.db[key])) else None;
            var outcome := HandleForced(res, st.db, name, ns, transform, modified);
            var st' := ApplyIn(res, st, outcome.effect);
            match transform(shown)
            case Some(ReportObject(r)) =>
              var made := Report(r.name, r.namespace, r.uid, "1", r.created, r.labels, r.body);
              var target := KeyFor(res, r.name, r.namespace);
              && outcome.response == Accepted(made)
              && st'.log == st.log + [Added(made)]
              && st'.db == if target in st.db then st.db[target := Value(target, Json(Marshal(made)), modified)]
                           else st.db
            case _ => outcome.response == Panicked && st' == st
  {
  }

  /** The same of the request for a namespaced report, whose forced update asks neither validation nor dry-run. */
  lemma ForcedRequestComesTo(st: State, q: Request)
    requires q.Update? && q.force
    ensures var key := Key(V1ALPHA2, q.name, q.namespace);
            match q.transform(if key in st.db && st.db[key].data.Json? then Some(ReportAt(st.db[key])) else None)
            case Some(ReportObject(r)) =>
              var made := Report(r.name, r.namespace, r.uid, "1", r.created, r.labels, r.body);
              var target := Key(V1ALPHA2, r.name, r.namespace);
              var st' := After(st, q, []);
              && Handle(st.db, q, []).response == Accepted(made)
              && if target in st.db then Landed(st, st', target, made, q.modified)
                 else st' == State(st.db, st.log + [Added(made)])
            case _ => Only(st, q, [], Panicked)
  {
    var key := Key(V1ALPHA2, q.name, q.namespace);
    ForcedComesTo(PolicyReports, st, q.name, q.namespace, q.transform, q.modified);
    match q.transform(if key in st.db && st.db[key].data.Json? then Some(ReportAt(st.db[key])) else None)
    case Some(ReportObject(r)) => WritingLands(st, r.(resourceVersion := "1"), q.modified, Reset);
    case _ =>
  }

  /**
    A delete, of either resource: the report must be stored, validation must accept
    it whether or not this is a dry run, and only without dry-run does the entry go
    and one Deleted event go out.
   */
  lemma DeleteComesTo(res: Resource, st: State, name: string, ns: string, validDelete: Report -> bool,
                      dryRun: seq<string>)
    requires var key := KeyFor(res, name, ns); key in st.db ==> SoundIn(res, key, st.db[key])
    ensures var key := KeyFor(res, name, ns);
            var outcome := HandleDelete(res, st.db, name, ns, validDelete, dryRun);
            var st' := ApplyIn(res, st, outcome.effect);
            if key !in st.db then outcome.response == Failed(NotFound) && st' == st
            else if !validDelete(ReportAt(st.db[key])) then
              outcome.response == Failed(BadRequest(Rejected)) && st' == st
            else
              && outcome.response == Removed(Marshal(ReportAt(st.db[key])))
              && st' == if "All" in dryRun then st
                        else State(st.db - {key}, st.log + [Deleted(ReportAt(st.db[key]))])
  {
    var key := KeyFor(res, name, ns);
    if key in st.db {
      OneDropped(res, ReportAt(st.db[key]));
    }
  }

  /** The same of the request for a namespaced report. */
  lemma DeleteRequestComesTo(st: State, q: Request)
    requires AllSound(st.db) && q.Delete?
    ensures var key := Key(V1ALPHA2, q.name, q.namespace);
            if key !in st.db then Only(st, q, [], Failed(NotFound))
            else if !q.validDelete(ReportAt(st.db[key])) then Only(st, q, [], Failed(BadRequest(Rejected)))
            else if "All" in q.dryRun then Only(st, q, [], Removed(Marshal(ReportAt(st.db[key]))))
            else
              && Handle(st.db, q, []).response == Removed(Marshal(ReportAt(st.db[key])))
              && After(st, q, []) == State(st.db - {key}, st.log + [Deleted(ReportAt(st.db[key]))])
  {
    FetchIsSound(st.db, q.name, q.namespace);
    DeleteComesTo(PolicyReports, st, q.name, q.namespace, q.validDelete, q.dryRun);
  }

  /** A stored text that does not decode counts as absent, but for a plain update, which says so. */
  lemma UnreadableComesTo(st: State, q: Request)
    requires q.Get? || q.Update? || q.Delete?
    requires var key := Key(V1ALPHA2, q.name, q.namespace); key in st.db && st.db[key].data.NotJson?
    ensures q.Get? || q.Delete? ==> Only(st, q, [], Failed(NotFound))
    ensures q.Update? && !q.force ==> Only(st, q, [], Failed(FetchFailed(Undecodable)))
    ensures q.Update? && q.force ==>
              match q.transform(None)
              case Some(ReportObject(r)) => Handle(st.db, q, []).response.Accepted?
              case _ => Only(st, q, [], Panicked)
  {
  }

  /** A stored version that does not parse stops the delete of its report, and an update of it. */
  lemma UnparseableComesTo(st: State, q: Request)
    requires (q.Update? && !q.force) || q.Delete?
    requires var key := Key(V1ALPHA2, q.name, q.namespace);
             key in st.db && st.db[key].data.Json? && ParseInt(ReportAt(st.db[key]).resourceVersion) == None
    requires "All" !in q.dryRun
    ensures var present := ReportAt(st.db[Key(V1ALPHA2, q.name, q.namespace)]);
            && (q.Delete? && q.validDelete(present) ==> Only(st, q, [], Failed(BadRequest(BadVersion))))
            && (q.Update? ==>
                  match q.transform(Some(present))
                  case Some(ReportObject(r)) =>
                    (q.validUpdate(ReportObject(r), present) || q.fieldValidation != "Strict")
                    && r.name == q.name && Placed(r, q.namespace).namespace == q.namespace ==>
                      Only(st, q, [], Failed(BadRequest(BadVersion)))
                  case _ => After(st, q, []) == st)
  {
  }

  // ----- Listings -----

  /**
    A listing fails exactly when some value in it does not decode; otherwise it
    answers all items or none, by its one verdict.
   */
  lemma ListComesTo(st: State, q: Request, order: seq<string>)
    requires q.List? && Walk(st.db, q, order)
    ensures var vals := ValuesAt(st.db, order);
            Only(st, q, order,
                 if exists k :: k in st.db && KeyForList(V1ALPHA2, q.namespace) <= k && st.db[k].data.NotJson?
                 then Failed(BadRequest(NotListed))
                 else Listed(if q.selector == None || Verdict(vals, q.selector.value) then Items(vals) else []))
  {
    var vals := ValuesAt(st.db, order);
    WalkDecodes(st.db, KeyForList(V1ALPHA2, q.namespace), order);
    AllOrNothing(vals, SelectorOf(q.selector));
  }

  lemma WalkDecodes(db: Db, prefix: string, order: seq<string>)
    requires Enumerates(order, db, prefix)
    ensures AllJson(ValuesAt(db, order)) <==> !exists k :: k in db && prefix <= k && db[k].data.NotJson?
  {
    var vals := ValuesAt(db, order);
    if k :| k in db && prefix <= k && db[k].data.NotJson? {
      var i :| 0 <= i < |order| && order[i] == k;
      assert vals[i] in vals;
    }
    if v :| v in vals && v.data.NotJson? {
      var i :| 0 <= i < |vals| && vals[i] == v;
      assert order[i] in order;
    }
  }

  /** A collection delete that is a dry run, or cannot list, answers as the listing does and does no more. */
  lemma DryCollectionComesTo(st: State, q: Request, order: seq<string>)
    requires q.DeleteCollection? && Walk(st.db, q, order)
    ensures var listing := Handle(st.db, List(q.namespace, q.selector), order).response;
            listing.Failed? || "All" in q.dryRun ==> Only(st, q, order, listing)
  {
  }

  /**
    In a listing without a selector, an item shows the body and the UID of the last
    value up to it that has one, its own or an earlier one, or nothing if none has.
   */
  lemma ListCarriesOver(st: State, q: Request, order: seq<string>, i: nat)
    requires q.List? && q.selector == None && Walk(st.db, q, order) && i < |order|
    requires AllJson(ValuesAt(st.db, order))
    ensures var vals, response := ValuesAt(st.db, order), Handle(st.db, q, order).response;
            && response.Listed? && |response.items| == |order|
            && (forall j :: 0 <= j <= i && LastWith(vals, j, i, BODY) ==>
                  response.items[i].body == FieldsOf(vals[j]).body.value)
            && (NoneWith(vals, i, BODY) ==> response.items[i].body == "")
            && (forall j :: 0 <= j <= i && LastWith(vals, j, i, UID) ==>
                  response.items[i].uid == FieldsOf(vals[j]).uid.value)
            && (NoneWith(vals, i, UID) ==> response.items[i].uid == "")
  {
    var vals := ValuesAt(st.db, order);
    AllOrNothing(vals, SelectorOf(None));
    forall j | 0 <= j <= i
      ensures LastWith(vals, j, i, BODY) ==> Items(vals)[i].body == FieldsOf(vals[j]).body.value
      ensures LastWith(vals, j, i, UID) ==> Items(vals)[i].uid == FieldsOf(vals[j]).uid.value
    {
      CarriesOver(vals, j, i);
    }
    CarriesNothing(vals, i);
  }

  /** What a deletion announces: each report once, or for a collection also as what Delete returned. */
  lemma {:induction false} DeletionIsAnnounced(rs: seq<Report>, i: nat)
    requires i < |rs|
    ensures |DeletionEvents(rs, false)| == |rs| && DeletionEvents(rs, false)[i] == Deleted(rs[i])
    ensures |DeletionEvents(rs, true)| == 2 * |rs|
    ensures DeletionEvents(rs, true)[2 * i] == Deleted(rs[i])
    ensures DeletionEvents(rs, true)[2 * i + 1] == DeletedObject(Marshal(rs[i]))
    decreases |rs|
  {
    if i > 0 {
      DeletionIsAnnounced(rs[1..], i - 1);
    } else if |rs| > 1 {
      DeletionIsAnnounced(rs[1..], 0);
    }
  }
}

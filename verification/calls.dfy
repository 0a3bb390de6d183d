/**
  What one call leaves for the next: reading back a create or an update, and
  undoing a create by a delete.  These hold of single keys, so namespaces and
  names may contain anything.
 */
module Calls {
  import opened Wrappers
  import opened Keys
  import opened Decimal
  import opened Codec
  import opened InMemory
  import opened Handlers
  import opened Abstraction

  /** The create is not a dry run, and validation lets it pass. */
  predicate Goes(q: Request) {
    && q.Create? && q.obj.ReportObject?
    && "All" !in q.dryRun && (q.valid || q.fieldValidation != "Strict")
  }

  function TargetNamespace(q: Request): string
    requires Goes(q)
  {
    if q.obj.report.namespace == "" then q.namespace else q.obj.report.namespace
  }

  function TargetKey(q: Request): string
    requires Goes(q)
  {
    Key(V1ALPHA2, q.obj.report.name, TargetNamespace(q))
  }

  /** What Get is to find: the submitted report in its namespace, new, as version 1. */
  function CreatedReport(q: Request): Report
    requires Goes(q)
  {
    var r := q.obj.report;
    Report(r.name, TargetNamespace(q), q.uid, "1", q.created, r.labels, r.body)
  }

  /** A create is refused exactly when its key is taken; otherwise Get finds what was submitted, stamped as new. */
  lemma CreateThenGet(st: State, q: Request)
    requires Goes(q)
    ensures var outcome := HandleCreate(st.db, q);
            var st' := Apply(st, outcome.effect);
            if TargetKey(q) in st.db then st' == st && outcome.response.Failed?
            else
              && HandleGet(st'.db, Get(q.obj.report.name, TargetNamespace(q))).response ==
                 Accepted(Norm(CreatedReport(q)))
              && st'.log == st.log + [Added(CreatedReport(q))]
  {
    FirstVersion();
    RoundTrip(CreatedReport(q));
    assert PlanCreate(q) == Proceed(CreatedReport(q));
  }

  /** Deleting what was just created restores the database, and announces both. */
  lemma CreateThenDelete(st: State, q: Request, d: Request)
    requires Goes(q) && TargetKey(q) !in st.db
    requires d.Delete? && d.name == q.obj.report.name && d.namespace == TargetNamespace(q)
    requires !IsDryRun(d.dryRun) && d.validDelete(Norm(CreatedReport(q)))
    ensures var st' := Apply(st, HandleCreate(st.db, q).effect);
            var outcome := Handle(st'.db, d, []);
            && outcome.response == Removed(Marshal(Norm(CreatedReport(q))))
            && Apply(st', outcome.effect) ==
               State(st.db, st.log + [Added(CreatedReport(q)), Deleted(Norm(CreatedReport(q)))])
  {
    FirstVersion();
    ParseFormatInt(1);
    var r := CreatedReport(q);
    RoundTrip(r);
    assert PlanCreate(q) == Proceed(r);
    var st' := Apply(st, HandleCreate(st.db, q).effect);
    assert GetReport(st'.db, d.name, d.namespace) == Fetched(Norm(r));
    assert KeyOf(Norm(r)) == TargetKey(q) && Norm(r) in [Norm(r)];
    OneDropped(PolicyReports, Norm(r));
    assert st'.db - {TargetKey(q)} == st.db;
  }

  /** An accepted update answers with the version after the stored one, and Get then finds what it answered. */
  lemma UpdateThenGet(st: State, q: Request)
    requires AllSound(st.db) && q.Update? && !q.force && !IsDryRun(q.dryRun)
    requires HandleUpdate(st.db, q).response.Accepted?
    ensures var r := HandleUpdate(st.db, q).response.report;
            var st' := Apply(st, HandleUpdate(st.db, q).effect);
            && KeyOf(r) in st.db
            && ParseInt(r.resourceVersion) == Some(Successor(ParseInt(ReportAt(st.db[KeyOf(r)]).resourceVersion).value))
            && HandleGet(st'.db, Get(r.name, r.namespace)).response == Accepted(Norm(r))
            && (forall k :: k in st'.db <==> k in st.db)
            && (forall k :: k in st.db && k != KeyOf(r) ==> st'.db[k] == st.db[k])
  {
    var plan := PlanUpdate(q, GetReport(st.db, q.name, q.namespace));
    FetchIsSound(st.db, plan.report.name, plan.report.namespace);
    var r := HandleUpdate(st.db, q).response.report;
    var v := ParseInt(ReportAt(st.db[KeyOf(r)]).resourceVersion).value;
    ParseFormatInt(Successor(v));
    RoundTrip(r);
  }

  /** After an accepted delete Get answers not-found, and every other entry is as it was. */
  lemma DeleteThenGet(st: State, q: Request)
    requires AllSound(st.db) && q.Delete? && !IsDryRun(q.dryRun)
    requires Handle(st.db, q, []).response.Removed?
    ensures var key := Key(V1ALPHA2, q.name, q.namespace);
            var st' := Apply(st, Handle(st.db, q, []).effect);
            && key in st.db && st'.db == st.db - {key}
            && HandleGet(st'.db, Get(q.name, q.namespace)).response == Failed(NotFound)
            && st'.log == st.log + [Deleted(ReportAt(st.db[key]))]
  {
    FetchIsSound(st.db, q.name, q.namespace);
    var r := GetReport(st.db, q.name, q.namespace).report;
    OneDropped(PolicyReports, r);
  }
}

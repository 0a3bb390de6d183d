/**
  What each cluster request comes to, written out case by case in terms of what
  it is given and what is stored.
 */
module ClusterOutcomes {
  import opened Wrappers
  import opened Keys
  import opened Decimal
  import opened Codec
  import opened InMemory
  import opened Listing
  import opened Handlers
  import opened Abstraction
  import opened Cluster
  import opened ClusterRuns
  import Outcomes

  function ClusterAfter(st: State, q: ClusterRequest, order: seq<string>): State
    requires ListsCluster(q) ==> forall k :: k in order ==> k in st.db
  {
    ApplyIn(ClusterPolicyReports, st, HandleCluster(st.db, q, order).effect)
  }

  /** The request is answered so, and changes nothing. */
  ghost predicate OnlyCluster(st: State, q: ClusterRequest, order: seq<string>, response: Response)
    requires ListsCluster(q) ==> forall k :: k in order ==> k in st.db
  {
    HandleCluster(st.db, q, order).response == response && ClusterAfter(st, q, order) == st
  }

  /** `r` replaces the entry under its key and no other, is announced, and is read back with all it says. */
  ghost predicate ClusterLanded(st: State, st': State, r: Report, modified: int) {
    var key := ClusterKey(V1ALPHA2, r.name);
    && key in st.db
    && st'.db == st.db[key := Value(key, Json(Marshal(r)), modified)]
    && st'.log == st.log + [Added(r)]
    && var got := HandleCluster(st'.db, GetCluster(r.name), []).response;
       got.Accepted? && Survives(got.report, r)
  }

  /** What creating and plainly updating do with the report once nothing stands in the way. */
  ghost predicate RecreateOutcome(st: State, q: ClusterRequest, r: Report, dryRun: seq<string>, stamp: Stamp)
    requires !ListsCluster(q)
  {
    if "All" in dryRun then OnlyCluster(st, q, [], Accepted(r))
    else if ClusterKey(V1ALPHA2, r.name) !in st.db then OnlyCluster(st, q, [], Failed(BadRequest(Refused)))
    else
      var made := Report(r.name, r.namespace, stamp.uid, "1", stamp.created, r.labels, r.body);
      && HandleCluster(st.db, q, []).response == Accepted(made)
      && ClusterLanded(st, ClusterAfter(st, q, []), made, stamp.modified)
  }

  lemma RecreateLands(st: State, r: Report, stamp: Stamp)
    requires ClusterKey(V1ALPHA2, r.name) in st.db
    ensures var made := Report(r.name, r.namespace, stamp.uid, "1", stamp.created, r.labels, r.body);
            var wrote := Wrote(Reset, made, stamp.modified);
            && Recreate(st.db, r, stamp) == Outcome(wrote, Accepted(made))
            && ClusterLanded(st, ApplyIn(ClusterPolicyReports, st, wrote), made, stamp.modified)
  {
    FirstVersion();
    EncodingSurvives(Report(r.name, r.namespace, stamp.uid, "1", stamp.created, r.labels, r.body));
  }

  /** A cluster create: strict validation, the kind of the object, dry-run, and last an entry that must be there. */
  lemma ClusterCreateComesTo(st: State, q: ClusterRequest)
    requires q.CreateCluster?
    ensures if !q.valid && q.fieldValidation == "Strict" then OnlyCluster(st, q, [], Failed(Invalid))
            else if q.obj.OtherObject? then OnlyCluster(st, q, [], Failed(BadRequest(WrongKind)))
            else RecreateOutcome(st, q, q.obj.report, q.dryRun, q.stamp)
  {
    if q.obj.ReportObject? && ClusterKey(V1ALPHA2, q.obj.report.name) in st.db {
      RecreateLands(st, q.obj.report, q.stamp);
    }
  }

  /** A plain cluster update creates anew what the transformer yields from the stored report. */
  lemma ClusterUpdateComesTo(st: State, q: ClusterRequest)
    requires q.UpdateCluster? && !q.force
    ensures var key := ClusterKey(V1ALPHA2, q.name);
            if key !in st.db then OnlyCluster(st, q, [], Failed(FetchFailed(Missing)))
            else if st.db[key].data.NotJson? then OnlyCluster(st, q, [], Failed(FetchFailed(Undecodable)))
            else
              var present := ReportAt(st.db[key]);
              match q.transform(Some(present))
              case None => OnlyCluster(st, q, [], Failed(NotTransformed))
              case Some(obj) =>
                if !q.validUpdate(obj, present) && q.fieldValidation == "Strict" then
                  OnlyCluster(st, q, [], Failed(Invalid))
                else if obj.OtherObject? then OnlyCluster(st, q, [], Failed(BadRequest(WrongKind)))
                else RecreateOutcome(st, q, obj.report, q.dryRun, q.stamp)
  {
    var key := ClusterKey(V1ALPHA2, q.name);
    if key in st.db && st.db[key].data.Json? {
      var obj := q.transform(Some(ReportAt(st.db[key])));
      if obj.Some? && obj.value.ReportObject? && ClusterKey(V1ALPHA2, obj.value.report.name) in st.db {
        RecreateLands(st, obj.value.report, q.stamp);
      }
    }
  }

  /** A forced cluster update is shown the stored report or nothing, announces, and stores over a present entry only. */
  lemma ClusterForceComesTo(st: State, q: ClusterRequest)
    requires q.UpdateCluster? && q.force
    ensures var key := ClusterKey(V1ALPHA2, q.name);
            match q.transform(if key in st.db && st.db[key].data.Json? then Some(ReportAt(st.db[key])) else None)
            case Some(ReportObject(r)) =>
              var made := Report(r.name, r.namespace, r.uid, "1", r.created, r.labels, r.body);
              var target := ClusterKey(V1ALPHA2, r.name);
              var st' := ClusterAfter(st, q, []);
              && HandleCluster(st.db, q, []).response == Accepted(made)
              && st'.log == st.log + [Added(made)]
              && st'.db == (if target in st.db
                            then st.db[target := Value(target, Json(Marshal(made)), q.stamp.modified)] else st.db)
            case _ => OnlyCluster(st, q, [], Panicked)
  {
    Outcomes.ForcedComesTo(ClusterPolicyReports, st, q.name, "", q.transform, q.stamp.modified);
  }

  /** A cluster delete: the entry must be there, validation must accept it, and only without dry-run does it go. */
  lemma ClusterDeleteComesTo(st: State, q: ClusterRequest)
    requires ClusterOrderly(st.db) && q.DeleteCluster?
    ensures var key := ClusterKey(V1ALPHA2, q.name);
            if key !in st.db then OnlyCluster(st, q, [], Failed(NotFound))
            else if !q.validDelete(ReportAt(st.db[key])) then OnlyCluster(st, q, [], Failed(BadRequest(Rejected)))
            else if "All" in q.dryRun then OnlyCluster(st, q, [], Removed(Marshal(ReportAt(st.db[key]))))
            else
              && HandleCluster(st.db, q, []).response == Removed(Marshal(ReportAt(st.db[key])))
              && ClusterAfter(st, q, []) == State(st.db - {key}, st.log + [Deleted(ReportAt(st.db[key]))])
  {
    ClusterKeysAreInRoot(q.name);
    Outcomes.DeleteComesTo(ClusterPolicyReports, st, q.name, "", q.validDelete, q.dryRun);
  }

  /** A cluster get answers what is stored under the key, or that there is nothing that it can read. */
  lemma ClusterGetComesTo(st: State, q: ClusterRequest)
    requires q.GetCluster?
    ensures var key := ClusterKey(V1ALPHA2, q.name);
            OnlyCluster(st, q, [], if key in st.db && st.db[key].data.Json? then Accepted(ReportAt(st.db[key]))
                                   else Failed(NotFound))
  {
  }

  /** A cluster listing fails exactly when some cluster value does not decode; otherwise it has all items or none. */
  lemma ClusterListComesTo(st: State, q: ClusterRequest, order: seq<string>)
    requires q.ListCluster? && ClusterWalk(st.db, q, order)
    ensures var vals := ValuesAt(st.db, order);
            OnlyCluster(st, q, order,
                        if exists k :: k in st.db && InClusterRoot(k) && st.db[k].data.NotJson?
                        then Failed(BadRequest(NotListed))
                        else Listed(if q.selector == None || Verdict(vals, q.selector.value) then Items(vals) else []))
  {
    var vals := ValuesAt(st.db, order);
    Outcomes.WalkDecodes(st.db, ClusterKeyForList(V1ALPHA2), order);
    AllOrNothing(vals, SelectorOf(q.selector));
  }

  /** A cluster collection delete that is a dry run, or cannot list, answers as the listing does and does no more. */
  lemma DryClusterCollectionComesTo(st: State, q: ClusterRequest, order: seq<string>)
    requires q.DeleteClusterCollection? && ClusterWalk(st.db, q, order)
    ensures var listing := HandleCluster(st.db, ListCluster(q.selector), order).response;
            listing.Failed? || "All" in q.dryRun ==> OnlyCluster(st, q, order, listing)
  {
  }
}

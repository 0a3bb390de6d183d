/**
  Both report stores over one database: they keep out of each other's entries,
  and what becomes of cluster entries that were there at first.
 */
module ClusterRuns {
  import opened Wrappers
  import opened Keys
  import opened Decimal
  import opened Codec
  import opened InMemory
  import opened Listing
  import opened Handlers
  import opened Abstraction
  import opened Collection
  import opened Cluster
  import Runs

  // ----- Isolation -----

  /** A cluster request writes over, or removes, entries that are already there; it never adds one. */
  lemma ClusterNeverAdds(st: State, q: ClusterRequest, order: seq<string>)
    requires ClusterWalk(st.db, q, order)
    ensures var e := HandleCluster(st.db, q, order).effect;
            && ApplyIn(ClusterPolicyReports, st, e).db.Keys <= st.db.Keys
            && (e.Wrote? ==> KeyIn(ClusterPolicyReports, e.report) in st.db && e.report.resourceVersion == "1")
  {
    FirstVersion();
  }

  /** A cluster request does not touch a namespaced entry. */
  lemma ClusterIsForeign(st: State, e: Effect)
    ensures Agree(st.db, ApplyIn(ClusterPolicyReports, st, e).db)
  {
    forall k, r: Report | InRoot(k)
      ensures KeyIn(ClusterPolicyReports, r) != k
    {
      RootExact(V1ALPHA2, V1ALPHA2, r.name, "");
    }
  }

  predicate InClusterRoot(k: string) {
    ClusterKeyForList(V1ALPHA2) <= k
  }

  /** The two databases hold the same cluster reports. */
  ghost predicate AgreeOnCluster(db: Db, db': Db) {
    forall k :: InClusterRoot(k) ==> (k in db <==> k in db') && (k in db ==> db[k] == db'[k])
  }

  /** A namespaced request does not touch a cluster entry. */
  lemma NamespacedIsForeign(st: State, e: Effect)
    ensures AgreeOnCluster(st.db, Apply(st, e).db)
  {
    forall k, r: Report | InClusterRoot(k)
      ensures KeyOf(r) != k
    {
      ClusterDisjoint(V1ALPHA2, r.name, r.namespace, V1ALPHA2, "");
    }
  }

  // ----- Runs of both stores over one database -----

  /** `Elsewhere` is what the stores of other API versions, if installed, could do. */
  datatype JointCall =
    | Namespaced(q: Request, order: seq<string>)
    | Clustered(c: ClusterRequest, order: seq<string>)
    | Elsewhere(db: Db)

  /** Each store has a watch log of its own. */
  datatype Joint = Joint(db: Db, log: seq<Event>, clusterLog: seq<Event>)

  ghost predicate JointPossible(j: Joint, call: JointCall) {
    match call
    case Namespaced(q, order) => Walk(j.db, q, order)
    case Clustered(c, order) => ClusterWalk(j.db, c, order)
    case Elsewhere(db) => Agree(j.db, db) && AgreeOnCluster(j.db, db)
  }

  ghost function JointNext(j: Joint, call: JointCall): Joint
    requires JointPossible(j, call)
  {
    match call
    case Namespaced(q, order) =>
      var st := Apply(State(j.db, j.log), Handle(j.db, q, order).effect);
      Joint(st.db, st.log, j.clusterLog)
    case Clustered(c, order) =>
      var st := ApplyIn(ClusterPolicyReports, State(j.db, j.clusterLog), HandleCluster(j.db, c, order).effect);
      Joint(st.db, j.log, st.log)
    case Elsewhere(db) => j.(db := db)
  }

  ghost function JointAfter(j: Joint, calls: seq<JointCall>): Option<Joint> {
    if |calls| == 0 then Some(j)
    else
      match JointAfter(j, calls[..|calls| - 1])
      case None => None
      case Some(before) =>
        var call := calls[|calls| - 1];
        if JointPossible(before, call) then Some(JointNext(before, call)) else None
  }

  lemma ChangesApart(db: Db, db': Db, a: string, b: string)
    requires !InRoot(a) && !InRoot(b) && !InClusterRoot(a) && !InClusterRoot(b)
    requires forall k :: k != a && k != b ==> (k in db <==> k in db') && (k in db ==> db[k] == db'[k])
    ensures Agree(db, db') && AgreeOnCluster(db, db')
  {
  }

  lemma OtherVersionsOutside(gv: GroupVersion, name: string, ns: string)
    requires gv.Valid() && gv != V1ALPHA2
    ensures !InRoot(Key(gv, name, ns)) && !InRoot(ClusterKey(gv, name))
    ensures !InClusterRoot(Key(gv, name, ns)) && !InClusterRoot(ClusterKey(gv, name))
  {
    ClusterPrefixExact(V1ALPHA2, gv, name);
    RootExact(V1ALPHA2, gv, name, ns);
    ClusterDisjoint(gv, name, ns, V1ALPHA2, "");
  }

  /** A store of any other version, which changes entries under its own keys only, is elsewhere. */
  lemma OtherVersionsAreElsewhere(db: Db, db': Db, gv: GroupVersion, name: string, ns: string)
    requires gv.Valid() && gv != V1ALPHA2
    requires forall k :: k != Key(gv, name, ns) && k != ClusterKey(gv, name) ==>
               (k in db <==> k in db') && (k in db ==> db[k] == db'[k])
    ensures Agree(db, db') && AgreeOnCluster(db, db')
  {
    OtherVersionsOutside(gv, name, ns);
    ChangesApart(db, db', Key(gv, name, ns), ClusterKey(gv, name));
  }

  /** A joint run as the namespaced store sees it: cluster requests are changes by another store. */
  ghost function Seen(j: Joint, calls: seq<JointCall>): seq<Runs.Call>
    requires JointAfter(j, calls).Some?
  {
    var n := |calls| - 1;
    if n < 0 then []
    else
      Seen(j, calls[..n]) +
      [if calls[n].Namespaced? then Runs.Own(calls[n].q, calls[n].order)
       else Runs.Foreign(JointAfter(j, calls).value.db)]
  }

  /** Everything proved of the namespaced store's runs holds of it in joint runs. */
  lemma {:induction false} JointRunIsARun(j: Joint, calls: seq<JointCall>)
    requires JointAfter(j, calls).Some?
    ensures var j' := JointAfter(j, calls).value;
            Runs.After(State(j.db, j.log), Seen(j, calls)) == Some(State(j'.db, j'.log))
  {
    var n := |calls| - 1;
    if n >= 0 {
      JointRunIsARun(j, calls[..n]);
      var before := JointAfter(j, calls[..n]).value;
      var seen := Seen(j, calls);
      assert seen[..|seen| - 1] == Seen(j, calls[..n]);
      if calls[n].Clustered? {
        ClusterIsForeign(State(before.db, before.clusterLog),
                         HandleCluster(before.db, calls[n].c, calls[n].order).effect);
      }
    }
  }

  // ----- What becomes of cluster entries -----

  /** A cluster entry as a request of this program writes it. */
  predicate Rewritten(k: string, v: Value) {
    SoundIn(ClusterPolicyReports, k, v) && ReportAt(v).resourceVersion == "1"
  }

  /** Each cluster entry of `db'` is one of `db`, or rewritten since. */
  ghost predicate Descends(db: Db, db': Db) {
    forall k :: k in db' && InClusterRoot(k) ==> k in db && (db'[k] == db[k] || Rewritten(k, db'[k]))
  }

  lemma ClusterStep(st: State, c: ClusterRequest, order: seq<string>)
    requires ClusterWalk(st.db, c, order)
    ensures Descends(st.db, ApplyIn(ClusterPolicyReports, st, HandleCluster(st.db, c, order).effect).db)
  {
    ClusterNeverAdds(st, c, order);
    var e := HandleCluster(st.db, c, order).effect;
    if e.Wrote? {
      ParseFormatInt(1);
      FirstVersion();
      StoredInIsSound(ClusterPolicyReports, e.report, e.modified);
    }
  }

  /**
    In every joint run, whatever the database held at first, cluster entries only
    disappear, and each that is left is the initial one or a report of that key
    with version 1.
   */
  lemma {:induction false} ClusterEntriesDescend(j: Joint, calls: seq<JointCall>)
    requires JointAfter(j, calls).Some?
    ensures Descends(j.db, JointAfter(j, calls).value.db)
  {
    var n := |calls| - 1;
    if n >= 0 {
      ClusterEntriesDescend(j, calls[..n]);
      var before := JointAfter(j, calls[..n]).value;
      match calls[n]
      case Namespaced(q, order) =>
        NamespacedIsForeign(State(before.db, before.log), Handle(before.db, q, order).effect);
      case Clustered(c, order) => ClusterStep(State(before.db, before.clusterLog), c, order);
      case Elsewhere(db) =>
    }
  }

  /** Keys agree with the cluster reports under them, versions parse, and names are not empty. */
  ghost predicate ClusterOrderly(db: Db) {
    forall k :: k in db && InClusterRoot(k) ==>
      SoundIn(ClusterPolicyReports, k, db[k]) && k != ClusterKeyForList(V1ALPHA2)
  }

  /** Whatever the requests are, an orderly set of cluster entries stays orderly: not even names need be asked for. */
  lemma ClusterStaysOrderly(j: Joint, calls: seq<JointCall>)
    requires ClusterOrderly(j.db) && JointAfter(j, calls).Some?
    ensures ClusterOrderly(JointAfter(j, calls).value.db)
  {
    ClusterEntriesDescend(j, calls);
  }

  /** A cluster write replaces one entry, which Get then finds with version 1 whatever version was there. */
  lemma ClusterWriteThenGet(st: State, q: ClusterRequest, order: seq<string>)
    requires ClusterWalk(st.db, q, order) && HandleCluster(st.db, q, order).effect.Wrote?
    ensures var r := HandleCluster(st.db, q, order).effect.report;
            var st' := ApplyIn(ClusterPolicyReports, st, HandleCluster(st.db, q, order).effect);
            && r.resourceVersion == "1"
            && HandleCluster(st'.db, GetCluster(r.name), []).response == Accepted(Norm(r))
            && st'.db.Keys == st.db.Keys
            && (forall k :: k in st.db && k != ClusterKey(V1ALPHA2, r.name) ==> st'.db[k] == st.db[k])
  {
    ClusterNeverAdds(st, q, order);
    RoundTrip(HandleCluster(st.db, q, order).effect.report);
  }

  lemma ClusterKeysAreInRoot(name: string)
    ensures InClusterRoot(ClusterKey(V1ALPHA2, name))
  {
    ClusterPrefixExact(V1ALPHA2, V1ALPHA2, name);
  }

  /** After an accepted cluster delete Get answers not-found, and every other entry is as it was. */
  lemma ClusterDeleteThenGet(st: State, q: ClusterRequest)
    requires ClusterOrderly(st.db) && q.DeleteCluster? && !IsDryRun(q.dryRun)
    requires HandleCluster(st.db, q, []).response.Removed?
    ensures var key := ClusterKey(V1ALPHA2, q.name);
            var st' := ApplyIn(ClusterPolicyReports, st, HandleCluster(st.db, q, []).effect);
            && key in st.db && st'.db == st.db - {key}
            && HandleCluster(st'.db, GetCluster(q.name), []).response == Failed(NotFound)
            && st'.log == st.log + [Deleted(ReportAt(st.db[key]))]
  {
    ClusterKeysAreInRoot(q.name);
    OneDropped(ClusterPolicyReports, GetClusterReport(st.db, q.name).report);
  }

  lemma ClusterItemIsKeyed(db: Db, order: seq<string>, i: nat)
    requires ClusterOrderly(db) && Enumerates(order, db, ClusterKeyForList(V1ALPHA2)) && i < |order|
    ensures SoundIn(ClusterPolicyReports, order[i], db[order[i]])
    ensures ClusterKey(V1ALPHA2, Items(ValuesAt(db, order))[i].name) == order[i]
  {
    assert order[i] in order;
    assert FieldsOf(ValuesAt(db, order)[i]).name.Some?;
  }

  /** Every walk over orderly cluster entries lists each under its own name. */
  lemma ClusterIsListable(db: Db, order: seq<string>)
    requires ClusterOrderly(db) && Enumerates(order, db, ClusterKeyForList(V1ALPHA2))
    ensures Listable(ClusterPolicyReports, db, "", order)
  {
    forall i | 0 <= i < |order|
      ensures SoundIn(ClusterPolicyReports, order[i], db[order[i]])
      ensures ClusterKey(V1ALPHA2, Items(ValuesAt(db, order))[i].name) == order[i]
    {
      ClusterItemIsKeyed(db, order, i);
    }
    forall v | v in ValuesAt(db, order)
      ensures v.data.Json?
    {
      var i :| 0 <= i < |order| && ValuesAt(db, order)[i] == v;
      ClusterItemIsKeyed(db, order, i);
    }
  }

  lemma ClusterCollectionEffect(st: State, c: ClusterRequest, order: seq<string>)
    requires ClusterOrderly(st.db) && c.DeleteClusterCollection? && !IsDryRun(c.dryRun) && ClusterWalk(st.db, c, order)
    ensures var gone := order[..Reach(st.db, c.selector, c.validDelete, order)];
            ApplyIn(ClusterPolicyReports, st, HandleCluster(st.db, c, order).effect) ==
            State(st.db - (set k | k in gone), st.log + DeletionEvents(ReportsAt(st.db, gone), true))
  {
    ClusterIsListable(st.db, order);
    DeletesWhatItReaches(ClusterPolicyReports, st, "", c.validDelete, c.dryRun, c.selector, order);
  }

  lemma ClusterCollectionResponse(db: Db, c: ClusterRequest, order: seq<string>)
    requires ClusterOrderly(db) && c.DeleteClusterCollection? && !IsDryRun(c.dryRun) && ClusterWalk(db, c, order)
    ensures var vals := ValuesAt(db, order);
            HandleCluster(db, c, order).response ==
            if !Verdict(vals, SelectorOf(c.selector)) then Listed([])
            else if Reach(db, c.selector, c.validDelete, order) < |order| then Failed(BadRequest(NotDeleted))
            else Listed(Items(vals))
  {
    ClusterIsListable(db, order);
    OutcomeInOrder(ClusterPolicyReports, db, "", c.validDelete, c.dryRun, c.selector, order);
  }

  /**
    Collection delete of cluster reports in any state of a joint run, whatever the
    selector and the validator: exactly the entries walked over before the first
    rejected one are gone, each announced twice, and it fails exactly when one is
    rejected; if the selector's one verdict is no, nothing happens.
   */
  lemma ClusterCollectionOutcome(j: Joint, calls: seq<JointCall>, c: ClusterRequest, order: seq<string>)
    requires ClusterOrderly(j.db) && JointAfter(j, calls).Some?
    requires c.DeleteClusterCollection? && !IsDryRun(c.dryRun) && ClusterWalk(JointAfter(j, calls).value.db, c, order)
    ensures var st := State(JointAfter(j, calls).value.db, JointAfter(j, calls).value.clusterLog);
            var outcome := HandleCluster(st.db, c, order);
            var vals, gone := ValuesAt(st.db, order), order[..Reach(st.db, c.selector, c.validDelete, order)];
            && ApplyIn(ClusterPolicyReports, st, outcome.effect) ==
               State(st.db - (set k | k in gone), st.log + DeletionEvents(ReportsAt(st.db, gone), true))
            && outcome.response ==
               if !Verdict(vals, SelectorOf(c.selector)) then Listed([])
               else if Reach(st.db, c.selector, c.validDelete, order) < |order| then Failed(BadRequest(NotDeleted))
               else Listed(Items(vals))
  {
    ClusterStaysOrderly(j, calls);
    var st := State(JointAfter(j, calls).value.db, JointAfter(j, calls).value.clusterLog);
    ClusterCollectionEffect(st, c, order);
    ClusterCollectionResponse(st.db, c, order);
  }

  /** With the default selector and accepting validation no cluster entry is left, and all others are as they were. */
  lemma ClusterCollectionEmpties(j: Joint, calls: seq<JointCall>, c: ClusterRequest, order: seq<string>)
    requires ClusterOrderly(j.db) && JointAfter(j, calls).Some?
    requires c.DeleteClusterCollection? && !IsDryRun(c.dryRun) && c.selector == None
    requires var db := JointAfter(j, calls).value.db;
             ClusterWalk(db, c, order) && forall k :: k in order ==> c.validDelete(ReportAt(db[k]))
    ensures var st := State(JointAfter(j, calls).value.db, JointAfter(j, calls).value.clusterLog);
            var outcome := HandleCluster(st.db, c, order);
            var st' := ApplyIn(ClusterPolicyReports, st, outcome.effect);
            && outcome.response.Listed?
            && (forall k :: k in st'.db <==> k in st.db && !InClusterRoot(k))
            && (forall k :: k in st'.db ==> st'.db[k] == st.db[k])
            && st'.log == st.log + DeletionEvents(ReportsAt(st.db, order), true)
  {
    ClusterStaysOrderly(j, calls);
    var st := State(JointAfter(j, calls).value.db, JointAfter(j, calls).value.clusterLog);
    ClusterIsListable(st.db, order);
    DeletesEverything(ClusterPolicyReports, st, "", c.validDelete, c.dryRun, order);
  }

  // ----- A database without cluster entries -----

  ghost predicate NoClusterEntries(db: Db) {
    forall k :: k in db ==> !InClusterRoot(k)
  }

  /** The cluster store over the in-memory database can never come to hold a report. */
  lemma ClusterStaysEmpty(j: Joint, calls: seq<JointCall>)
    requires NoClusterEntries(j.db) && JointAfter(j, calls).Some?
    ensures NoClusterEntries(JointAfter(j, calls).value.db)
  {
    ClusterEntriesDescend(j, calls);
  }

  /** What the cluster store answers in such a run. */
  lemma ClusterAnswersNothing(j: Joint, calls: seq<JointCall>, c: ClusterRequest, order: seq<string>)
    requires NoClusterEntries(j.db) && JointAfter(j, calls).Some?
    requires ClusterWalk(JointAfter(j, calls).value.db, c, order)
    ensures var db := JointAfter(j, calls).value.db;
            var outcome := HandleCluster(db, c, order);
            && (c.GetCluster? ==> outcome.response == Failed(NotFound))
            && (c.CreateCluster? && !IsDryRun(c.dryRun) ==> outcome.response.Failed?)
            && (c.UpdateCluster? && !c.force ==> outcome.response == Failed(FetchFailed(Missing)))
            && (ListsCluster(c) ==> outcome.response == Listed([]))
            && ApplyIn(ClusterPolicyReports, State(db, []), outcome.effect).db == db
  {
    assert order == [] || order[0] in order;
    ClusterStaysEmpty(j, calls);
    var db := JointAfter(j, calls).value.db;
    forall name
      ensures ClusterKey(V1ALPHA2, name) !in db
    {
      ClusterKeysAreInRoot(name);
    }
    if ListsCluster(c) {
      assert forall k :: k in order ==> k in db && InClusterRoot(k);
      assert ValuesAt(db, order) == [] && Items([]) == [];
    }
  }
}

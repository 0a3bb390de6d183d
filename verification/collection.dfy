/**
  Listing a namespace, and deleting everything in it, run alone from a state
  that requests can lead to.
 */
module Collection {
  import opened Wrappers
  import opened Keys
  import opened Decimal
  import opened Codec
  import opened InMemory
  import opened Listing
  import opened Handlers
  import opened Abstraction
  import opened Runs

  /** No stored report has an empty name. */
  ghost predicate Named(db: Db) {
    forall k :: k in db && InRoot(k) ==> ReportAt(db[k]).name != ""
  }

  /** The request names the report it writes. */
  ghost predicate Names(q: Request) {
    && (q.Create? && q.obj.ReportObject? ==> q.obj.report.name != "")
    && (q.Update? ==> forall o :: q.transform(o).Some? && q.transform(o).value.ReportObject? ==>
                        q.transform(o).value.report.name != "")
  }

  ghost predicate Orderly(db: Db) {
    AllSound(db) && Segmented(db) && Named(db)
  }

  lemma NamedEffects(db: Db, q: Request, order: seq<string>)
    requires Names(q)
    requires Lists(q) ==> forall k :: k in order ==> k in db
    ensures var e := Handle(db, q, order).effect; e.Wrote? ==> e.report.name != ""
  {
  }

  lemma WriteStaysNamed(db: Db, r: Report, modified: int)
    requires Named(db) && r.name != ""
    ensures Named(db[KeyOf(r) := Stored(r, modified)])
  {
    StoredIsSound(r, modified);
    assert Norm(r).name == r.name;
  }

  lemma NextStaysNamed(st: State, c: Call)
    requires Named(st.db) && Possible(st, c) && (c.Own? ==> Names(c.q))
    ensures Named(Next(st, c).db)
  {
    if c.Own? {
      NamedEffects(st.db, c.q, c.order);
      var e := EffectOf(st, c);
      if e.Wrote? {
        WriteStaysNamed(st.db, e.report, e.modified);
      }
    }
  }

  /** Requests in path-segment namespaces with non-empty names lead to orderly states only. */
  lemma {:induction false} RunsStayOrderly(st: State, calls: seq<Call>)
    requires Blank(st) && LegalCalls(calls) && After(st, calls).Some?
    requires forall c :: c in calls && c.Own? ==> Names(c.q)
    ensures Orderly(After(st, calls).value.db)
  {
    ReplayIsStorePlusPhantoms(st, calls);
    var n := |calls| - 1;
    if n >= 0 {
      RunsStayOrderly(st, calls[..n]);
      NextStaysNamed(After(st, calls[..n]).value, calls[n]);
    }
  }

  lemma ListedKey(db: Db, ns: string, k: string)
    requires AllSound(db) && Segmented(db) && SlashFree(ns) && k in db && KeyForList(V1ALPHA2, ns) <= k
    ensures InRoot(k) && Sound(k, db[k]) && ReportAt(db[k]).namespace == ns
    ensures Key(V1ALPHA2, ReportAt(db[k]).name, ns) == k
  {
    RootExact(V1ALPHA2, V1ALPHA2, "", ns);
    var r := ReportAt(db[k]);
    ListPrefixExact(V1ALPHA2, ns, V1ALPHA2, r.name, r.namespace);
  }

  /** An item copies the identity of its own value when that was stored non-empty, and all share a namespace. */
  lemma ItemIdentity(vals: seq<Value>, i: nat, ns: string)
    requires i < |vals| && FieldsOf(vals[i]).name.Some? && FieldsOf(vals[i]).resourceVersion.Some?
    requires forall j :: 0 <= j < |vals| ==> Decode(FieldsOf(vals[j])).namespace == ns
    ensures var item, r := Items(vals)[i], Decode(FieldsOf(vals[i]));
            && item.name == r.name && item.namespace == r.namespace == ns
            && item.resourceVersion == r.resourceVersion && item.created == r.created
            && (r.uid != "" ==> item.uid == r.uid)
  {
    SameNamespace(vals, i + 1, ns);
  }

  lemma ListedValues(db: Db, ns: string, order: seq<string>)
    requires Orderly(db) && SlashFree(ns) && Enumerates(order, db, KeyForList(V1ALPHA2, ns))
    ensures var vals := ValuesAt(db, order);
            && AllJson(vals)
            && (forall i :: 0 <= i < |vals| ==> Decode(FieldsOf(vals[i])).namespace == ns)
            && (forall i :: 0 <= i < |vals| ==> FieldsOf(vals[i]).name.Some? && FieldsOf(vals[i]).resourceVersion.Some?)
  {
    var vals := ValuesAt(db, order);
    forall i | 0 <= i < |order|
      ensures vals[i].data.Json? && Decode(FieldsOf(vals[i])).namespace == ns
      ensures FieldsOf(vals[i]).name.Some? && FieldsOf(vals[i]).resourceVersion.Some?
    {
      ListedKey(db, ns, order[i]);
    }
  }

  /** Whatever the order of the walk, every item shows its own report's identity, version and time. */
  lemma ItemIsExact(db: Db, ns: string, order: seq<string>, i: nat)
    requires Orderly(db) && SlashFree(ns) && Enumerates(order, db, KeyForList(V1ALPHA2, ns)) && i < |order|
    ensures AllJson(ValuesAt(db, order))
    ensures var item, r := Items(ValuesAt(db, order))[i], ReportAt(db[order[i]]);
            && IdOf(item) == IdOf(r) == Id(ns, r.name)
            && item.resourceVersion == r.resourceVersion
            && item.created == r.created
            && (r.uid != "" ==> item.uid == r.uid)
  {
    ListedValues(db, ns, order);
    ItemIdentity(ValuesAt(db, order), i, ns);
  }

  lemma ItemsDiffer(db: Db, ns: string, order: seq<string>, i: nat, j: nat)
    requires Orderly(db) && SlashFree(ns) && Enumerates(order, db, KeyForList(V1ALPHA2, ns)) && i < j < |order|
    ensures IdOf(Items(ValuesAt(db, order))[i]) != IdOf(Items(ValuesAt(db, order))[j])
  {
    ItemIsExact(db, ns, order, i);
    ItemIsExact(db, ns, order, j);
    ListedKey(db, ns, order[i]);
    ListedKey(db, ns, order[j]);
  }

  lemma ItemForId(db: Db, ns: string, order: seq<string>, id: Id)
    requires Orderly(db) && SlashFree(ns) && Enumerates(order, db, KeyForList(V1ALPHA2, ns)) && id.namespace == ns
    requires id in Abs(db)
    ensures exists i :: 0 <= i < |order| && IdOf(Items(ValuesAt(db, order))[i]) == id
  {
    AbsAt(db, id);
    ListPrefixExact(V1ALPHA2, ns, V1ALPHA2, id.name, ns);
    var i :| 0 <= i < |order| && order[i] == KeyAt(id);
    ItemIsExact(db, ns, order, i);
  }

  lemma IdOfItem(db: Db, ns: string, order: seq<string>, i: nat)
    requires Orderly(db) && SlashFree(ns) && Enumerates(order, db, KeyForList(V1ALPHA2, ns)) && i < |order|
    ensures IdOf(Items(ValuesAt(db, order))[i]) in Abs(db)
  {
    ItemIsExact(db, ns, order, i);
    ListedKey(db, ns, order[i]);
    AbsAt(db, IdOf(ReportAt(db[order[i]])));
  }

  /** A listing has exactly one item for each stored report of the namespace. */
  lemma ListingIsExact(db: Db, ns: string, order: seq<string>)
    requires Orderly(db) && SlashFree(ns) && Enumerates(order, db, KeyForList(V1ALPHA2, ns))
    ensures var items := Items(ValuesAt(db, order));
            && (forall i, j :: 0 <= i < j < |items| ==> IdOf(items[i]) != IdOf(items[j]))
            && (forall id: Id :: id.namespace == ns ==>
                  (id in Abs(db) <==> exists i :: 0 <= i < |items| && IdOf(items[i]) == id))
  {
    var items := Items(ValuesAt(db, order));
    assert |items| == |order|;
    forall i, j | 0 <= i < j < |items|
      ensures IdOf(items[i]) != IdOf(items[j])
    {
      ItemsDiffer(db, ns, order, i, j);
    }
    forall i | 0 <= i < |items|
      ensures IdOf(items[i]) in Abs(db)
    {
      IdOfItem(db, ns, order, i);
    }
    forall id: Id | id.namespace == ns && id in Abs(db)
      ensures exists i :: 0 <= i < |items| && IdOf(items[i]) == id
    {
      ItemForId(db, ns, order, id);
    }
  }

  /** The position of the first report, in the order of the walk, that validation rejects. */
  function FirstRejected(db: Db, order: seq<string>, valid: Report -> bool): (j: nat)
    requires forall k :: k in order ==> k in db
    ensures j <= |order|
    ensures j < |order| ==> !valid(ReportAt(db[order[j]]))
    ensures forall i :: 0 <= i < j ==> valid(ReportAt(db[order[i]]))
  {
    if |order| == 0 || !valid(ReportAt(db[order[0]])) then 0 else 1 + FirstRejected(db, order[1..], valid)
  }

  function ReportsAt(db: Db, order: seq<string>): seq<Report>
    requires forall k :: k in order ==> k in db
  {
    seq(|order|, i requires 0 <= i < |order| => ReportAt(db[order[i]]))
  }

  /** The head of the loop: the item's report goes if validation accepts it. */
  lemma HeadGoes(res: Resource, left: Db, items: seq<Report>, ns: string, valid: Report -> bool, key: string)
    requires |items| > 0 && KeyFor(res, items[0].name, ns) == key && key in left && SoundIn(res, key, left[key])
    ensures var r := ReportAt(left[key]);
            var rest := DeleteItems(res, left - {key}, items[1..], ns, valid);
            DeleteItems(res, left, items, ns, valid) == if valid(r) then ([r] + rest.0, rest.1) else ([], false)
  {
    assert FetchUnder(left, key) == Fetched(ReportAt(left[key]));
  }

  lemma ReportsSplit(db: Db, order: seq<string>, j: nat)
    requires |order| > 0 && j < |order| && forall k :: k in order ==> k in db
    ensures ReportsAt(db, order[..j + 1]) == [ReportAt(db[order[0]])] + ReportsAt(db, order[1..][..j])
  {
  }

  /** The items stand for the keys in `order`, all of which are still in `left`. */
  ghost predicate Keyed(res: Resource, db: Db, left: Db, items: seq<Report>, order: seq<string>, ns: string) {
    && |items| == |order| && Distinct(order)
    && (forall k :: k in order ==> k in db && k in left && left[k] == db[k])
    && forall i :: 0 <= i < |order| ==>
         SoundIn(res, order[i], db[order[i]]) && KeyFor(res, items[i].name, ns) == order[i]
  }

  lemma KeyedTail(res: Resource, db: Db, left: Db, items: seq<Report>, order: seq<string>, ns: string)
    requires |order| > 0 && Keyed(res, db, left, items, order, ns)
    ensures Keyed(res, db, left - {order[0]}, items[1..], order[1..], ns)
  {
    var rest := order[1..];
    forall i | 0 <= i < |rest|
      ensures rest[i] == order[i + 1] && rest[i] != order[0]
      ensures SoundIn(res, rest[i], db[rest[i]]) && KeyFor(res, items[1..][i].name, ns) == rest[i]
    {
      assert items[1..][i] == items[i + 1];
    }
    forall k | k in rest
      ensures k in order && k != order[0]
    {
      var i :| 0 <= i < |rest| && rest[i] == k;
    }
  }

  /** The loop gets as far as validation lets it; `left` is what it has not deleted yet. */
  lemma {:induction false} DeletesInOrder(res: Resource, db: Db, left: Db, items: seq<Report>, order: seq<string>,
                                          ns: string, valid: Report -> bool)
    requires Keyed(res, db, left, items, order, ns)
    ensures var j := FirstRejected(db, order, valid);
            DeleteItems(res, left, items, ns, valid) == (ReportsAt(db, order[..j]), j == |order|)
    decreases |items|
  {
    if |order| == 0 {
      assert ReportsAt(db, order[..0]) == [];
    } else {
      HeadGoes(res, left, items, ns, valid, order[0]);
      if valid(ReportAt(db[order[0]])) {
        KeyedTail(res, db, left, items, order, ns);
        DeletesInOrder(res, db, left - {order[0]}, items[1..], order[1..], ns, valid);
        ReportsSplit(db, order, FirstRejected(db, order[1..], valid));
      } else {
        assert ReportsAt(db, order[..0]) == [];
      }
    }
  }

  lemma KeysOfReports(res: Resource, db: Db, order: seq<string>, j: nat)
    requires forall i :: 0 <= i < |order| ==> order[i] in db && SoundIn(res, order[i], db[order[i]])
    requires j <= |order|
    ensures KeysIn(res, ReportsAt(db, order[..j])) == set k | k in order[..j]
  {
    var rs := ReportsAt(db, order[..j]);
    forall i | 0 <= i < j
      ensures KeyIn(res, rs[i]) == order[i]
    {
      assert order[..j][i] == order[i];
    }
    forall k | k in order[..j]
      ensures k in KeysIn(res, rs)
    {
      var i :| 0 <= i < j && order[i] == k;
      assert rs[i] in rs && KeyIn(res, rs[i]) == k;
    }
  }

  /** Every value walked over decodes, and its item leads back to its key. */
  ghost predicate Listable(res: Resource, db: Db, ns: string, order: seq<string>) {
    && (forall k :: k in order ==> k in db)
    && AllJson(ValuesAt(db, order))
    && Keyed(res, db, db, Items(ValuesAt(db, order)), order, ns)
  }

  lemma ItemsAreKeyed(db: Db, ns: string, order: seq<string>)
    requires Orderly(db) && SlashFree(ns) && Enumerates(order, db, KeyForList(V1ALPHA2, ns))
    ensures Listable(PolicyReports, db, ns, order)
  {
    ListedValues(db, ns, order);
    forall i | 0 <= i < |order|
      ensures Sound(order[i], db[order[i]])
      ensures Key(V1ALPHA2, Items(ValuesAt(db, order))[i].name, ns) == order[i]
    {
      ItemIsExact(db, ns, order, i);
      ListedKey(db, ns, order[i]);
    }
  }

  /** How far a collection delete gets: nowhere if the listing's one verdict is no. */
  function Reach(db: Db, selector: Option<Selector>, valid: Report -> bool, order: seq<string>): (j: nat)
    requires forall k :: k in order ==> k in db
    ensures j <= |order|
  {
    if Verdict(ValuesAt(db, order), SelectorOf(selector)) then FirstRejected(db, order, valid) else 0
  }

  lemma ListsByVerdict(db: Db, selector: Option<Selector>, order: seq<string>)
    requires (forall k :: k in order ==> k in db) && AllJson(ValuesAt(db, order))
    ensures ListReports(db, selector, order) ==
            Some(if Verdict(ValuesAt(db, order), SelectorOf(selector)) then Items(ValuesAt(db, order)) else [])
  {
    AllOrNothing(ValuesAt(db, order), SelectorOf(selector));
  }

  /** Without a selector a listing returns every item. */
  lemma DefaultListsEverything(db: Db, q: Request, order: seq<string>)
    requires q.List? && q.selector == None
    requires Orderly(db) && SlashFree(q.namespace) && Walk(db, q, order)
    ensures Handle(db, q, order) == Outcome(Nothing, Listed(Items(ValuesAt(db, order))))
  {
    ItemsAreKeyed(db, q.namespace, order);
    ListsByVerdict(db, None, order);
  }

  lemma OutcomeOfItems(res: Resource, db: Db, ns: string, valid: Report -> bool, dryRun: seq<string>,
                       selector: Option<Selector>, order: seq<string>, items: seq<Report>)
    requires !IsDryRun(dryRun)
    requires (forall k :: k in order ==> k in db) && ListReports(db, selector, order) == Some(items)
    ensures var all := DeleteItems(res, db, items, ns, valid);
            HandleCollection(res, db, ns, valid, dryRun, selector, order) ==
            Outcome(Dropped(all.0, true), if all.1 then Listed(items) else Failed(BadRequest(NotDeleted)))
  {
  }

  lemma NoVerdictKeeps(res: Resource, db: Db, ns: string, valid: Report -> bool, dryRun: seq<string>,
                       selector: Option<Selector>, order: seq<string>)
    requires !IsDryRun(dryRun) && (forall k :: k in order ==> k in db) && AllJson(ValuesAt(db, order))
    requires !Verdict(ValuesAt(db, order), SelectorOf(selector))
    ensures HandleCollection(res, db, ns, valid, dryRun, selector, order) == Outcome(Dropped([], true), Listed([]))
  {
    ListsByVerdict(db, selector, order);
    OutcomeOfItems(res, db, ns, valid, dryRun, selector, order, []);
    assert DeleteItems(res, db, [], ns, valid) == ([], true);
  }

  lemma VerdictDeletes(res: Resource, db: Db, ns: string, valid: Report -> bool, dryRun: seq<string>,
                       selector: Option<Selector>, order: seq<string>)
    requires Listable(res, db, ns, order) && !IsDryRun(dryRun)
    requires Verdict(ValuesAt(db, order), SelectorOf(selector))
    ensures var j := FirstRejected(db, order, valid);
            HandleCollection(res, db, ns, valid, dryRun, selector, order) ==
            Outcome(Dropped(ReportsAt(db, order[..j]), true),
                    if j < |order| then Failed(BadRequest(NotDeleted)) else Listed(Items(ValuesAt(db, order))))
  {
    var items := Items(ValuesAt(db, order));
    ListsByVerdict(db, selector, order);
    DeletesInOrder(res, db, db, items, order, ns, valid);
    OutcomeOfItems(res, db, ns, valid, dryRun, selector, order, items);
  }

  /**
    Collection delete of either resource, whatever the selector and the
    validator: either the selector's one verdict keeps everything, or exactly the
    reports before the first rejected one go, in the order of the walk; only then
    does it fail.
   */
  lemma OutcomeInOrder(res: Resource, db: Db, ns: string, valid: Report -> bool, dryRun: seq<string>,
                       selector: Option<Selector>, order: seq<string>)
    requires Listable(res, db, ns, order) && !IsDryRun(dryRun)
    ensures var vals, j := ValuesAt(db, order), Reach(db, selector, valid, order);
            HandleCollection(res, db, ns, valid, dryRun, selector, order) ==
            Outcome(Dropped(ReportsAt(db, order[..j]), true),
                    if !Verdict(vals, SelectorOf(selector)) then Listed([])
                    else if j < |order| then Failed(BadRequest(NotDeleted)) else Listed(Items(vals)))
  {
    if Verdict(ValuesAt(db, order), SelectorOf(selector)) {
      VerdictDeletes(res, db, ns, valid, dryRun, selector, order);
    } else {
      NoVerdictKeeps(res, db, ns, valid, dryRun, selector, order);
      assert ReportsAt(db, order[..0]) == [];
    }
  }

  /** Exactly the keys walked over before that point are gone, and each is announced twice. */
  lemma DeletesWhatItReaches(res: Resource, st: State, ns: string, valid: Report -> bool, dryRun: seq<string>,
                             selector: Option<Selector>, order: seq<string>)
    requires Listable(res, st.db, ns, order) && !IsDryRun(dryRun)
    ensures var gone := order[..Reach(st.db, selector, valid, order)];
            ApplyIn(res, st, HandleCollection(res, st.db, ns, valid, dryRun, selector, order).effect) ==
            State(st.db - (set k | k in gone), st.log + DeletionEvents(ReportsAt(st.db, gone), true))
  {
    OutcomeInOrder(res, st.db, ns, valid, dryRun, selector, order);
    KeysOfReports(res, st.db, order, Reach(st.db, selector, valid, order));
  }

  /** With the default selector and accepting validation it gets through, and everything walked over is gone. */
  lemma DeletesEverything(res: Resource, st: State, ns: string, valid: Report -> bool, dryRun: seq<string>,
                          order: seq<string>)
    requires Listable(res, st.db, ns, order) && !IsDryRun(dryRun)
    requires forall k :: k in order ==> valid(ReportAt(st.db[k]))
    ensures var outcome := HandleCollection(res, st.db, ns, valid, dryRun, None, order);
            && outcome.response == Listed(Items(ValuesAt(st.db, order)))
            && ApplyIn(res, st, outcome.effect) ==
               State(st.db - (set k | k in order), st.log + DeletionEvents(ReportsAt(st.db, order), true))
  {
    OutcomeInOrder(res, st.db, ns, valid, dryRun, None, order);
    DeletesWhatItReaches(res, st, ns, valid, dryRun, None, order);
    var j := Reach(st.db, None, valid, order);
    assert forall i :: 0 <= i < |order| ==> order[i] in order;
    assert j == |order|;
    assert order[..j] == order;
  }

  /** Collection delete of a namespace, whatever the selector and the validator. */
  lemma CollectionOutcome(db: Db, q: Request, order: seq<string>)
    requires q.DeleteCollection? && !IsDryRun(q.dryRun)
    requires Orderly(db) && SlashFree(q.namespace) && Walk(db, q, order)
    ensures var vals, j := ValuesAt(db, order), Reach(db, q.selector, q.validDelete, order);
            Handle(db, q, order) ==
            Outcome(Dropped(ReportsAt(db, order[..j]), true),
                    if !Verdict(vals, SelectorOf(q.selector)) then Listed([])
                    else if j < |order| then Failed(BadRequest(NotDeleted)) else Listed(Items(vals)))
  {
    ItemsAreKeyed(db, q.namespace, order);
    OutcomeInOrder(PolicyReports, db, q.namespace, q.validDelete, q.dryRun, q.selector, order);
  }

  /** Exactly the keys walked over before that point are gone, and each is announced twice. */
  lemma CollectionDeletes(st: State, q: Request, order: seq<string>)
    requires q.DeleteCollection? && !IsDryRun(q.dryRun)
    requires Orderly(st.db) && SlashFree(q.namespace) && Walk(st.db, q, order)
    ensures var gone := order[..Reach(st.db, q.selector, q.validDelete, order)];
            Apply(st, Handle(st.db, q, order).effect) ==
            State(st.db - (set k | k in gone), st.log + DeletionEvents(ReportsAt(st.db, gone), true))
  {
    ItemsAreKeyed(st.db, q.namespace, order);
    DeletesWhatItReaches(PolicyReports, st, q.namespace, q.validDelete, q.dryRun, q.selector, order);
  }

  /**
    With the default selector and accepting validation, in any state that a run
    can lead to: it succeeds, the namespace is empty afterwards, every other
    entry is as it was, and each deleted report is announced twice.
   */
  lemma CollectionEmpties(st0: State, calls: seq<Call>, q: Request, order: seq<string>)
    requires Blank(st0) && LegalCalls(calls) && After(st0, calls).Some?
    requires forall c :: c in calls && c.Own? ==> Names(c.q)
    requires q.DeleteCollection? && !IsDryRun(q.dryRun) && q.selector == None && SlashFree(q.namespace)
    requires var db := After(st0, calls).value.db;
             Walk(db, q, order) && forall k :: k in order ==> q.validDelete(ReportAt(db[k]))
    ensures var st := After(st0, calls).value;
            var outcome := Handle(st.db, q, order);
            var st' := Apply(st, outcome.effect);
            && outcome.response.Listed?
            && (forall k :: k in st'.db <==> k in st.db && !(KeyForList(V1ALPHA2, q.namespace) <= k))
            && (forall k :: k in st'.db ==> st'.db[k] == st.db[k])
            && st'.log == st.log + DeletionEvents(ReportsAt(st.db, order), true)
  {
    RunsStayOrderly(st0, calls);
    var st := After(st0, calls).value;
    ItemsAreKeyed(st.db, q.namespace, order);
    DeletesEverything(PolicyReports, st, q.namespace, q.validDelete, q.dryRun, order);
  }

  // ----- A selector that is not obeyed -----

  function Labelled(name: string, tag: string): Report {
    Report(name, "n", "u", "1", 0, Some(map["a" := tag]), "")
  }

  function CreateLabelled(name: string, tag: string): Request {
    Create("n", ReportObject(Labelled(name, tag)), true, "Strict", [], "u", 0, 0)
  }

  lemma LabelledIsStored(name: string, tag: string)
    ensures FieldsOf(Stored(Labelled(name, tag), 0)).labels == Some(map["a" := tag])
    ensures Unmarshal(Stored(Labelled(name, tag), 0).data, ZERO_REPORT) == Some(Labelled(name, tag))
  {
    assert "a" in map["a" := tag];
    RoundTrip(Labelled(name, tag));
  }

  lemma CreatesLabelled(st: State, name: string, tag: string)
    requires KeyOf(Labelled(name, tag)) !in st.db
    ensures Next(st, Own(CreateLabelled(name, tag), [])) ==
            State(st.db[KeyOf(Labelled(name, tag)) := Stored(Labelled(name, tag), 0)],
                  st.log + [Added(Labelled(name, tag))])
  {
    FirstVersion();
    assert PlanCreate(CreateLabelled(name, tag)) == Proceed(Labelled(name, tag));
  }

  lemma KeysDiffer()
    ensures KeyOf(Labelled("v", "1")) != KeyOf(Labelled("w", "2"))
    ensures KeyForList(V1ALPHA2, "n") <= KeyOf(Labelled("v", "1"))
    ensures KeyForList(V1ALPHA2, "n") <= KeyOf(Labelled("w", "2"))
  {
    KeyInjective(V1ALPHA2, "v", "n", V1ALPHA2, "w", "n");
    ListPrefixExact(V1ALPHA2, "n", V1ALPHA2, "v", "n");
    ListPrefixExact(V1ALPHA2, "n", V1ALPHA2, "w", "n");
  }

  lemma CreatesAreLegal(name: string, tag: string)
    ensures Legal(CreateLabelled(name, tag))
  {
    assert "n"[0] != '/';
  }

  /** One more create in a run. */
  lemma CreateNext(st: State, calls: seq<Call>, name: string, tag: string) returns (more: seq<Call>)
    requires LegalCalls(calls) && After(st, calls).Some? && KeyOf(Labelled(name, tag)) !in After(st, calls).value.db
    ensures LegalCalls(more) && After(st, more).Some?
    ensures After(st, more).value.db ==
            After(st, calls).value.db[KeyOf(Labelled(name, tag)) := Stored(Labelled(name, tag), 0)]
  {
    CreatesAreLegal(name, tag);
    CreatesLabelled(After(st, calls).value, name, tag);
    RunSnoc(st, calls, Own(CreateLabelled(name, tag), []));
    more := calls + [Own(CreateLabelled(name, tag), [])];
  }

  /** From a store that has served nothing, two creates: reports v and w, labelled a=1 and a=2. */
  lemma CreatesBoth(st: State) returns (calls: seq<Call>)
    requires Blank(st)
    ensures LegalCalls(calls) && After(st, calls).Some?
    ensures var v, w := Labelled("v", "1"), Labelled("w", "2");
            After(st, calls).value.db == st.db[KeyOf(v) := Stored(v, 0)][KeyOf(w) := Stored(w, 0)]
  {
    KeysDiffer();
    KeysAreInRoot(Labelled("v", "1"));
    KeysAreInRoot(Labelled("w", "2"));
    calls := CreateNext(st, [], "v", "1");
    calls := CreateNext(st, calls, "w", "2");
  }

  lemma WalksOverBoth(st: State, v: Report, w: Report)
    requires Blank(st) && v == Labelled("v", "1") && w == Labelled("w", "2")
    ensures var db := st.db[KeyOf(v) := Stored(v, 0)][KeyOf(w) := Stored(w, 0)];
            && Enumerates([KeyOf(v), KeyOf(w)], db, KeyForList(V1ALPHA2, "n"))
            && Enumerates([KeyOf(w), KeyOf(v)], db, KeyForList(V1ALPHA2, "n"))
  {
    KeysDiffer();
    RootExact(V1ALPHA2, V1ALPHA2, "", "n");
    assert forall k :: k in st.db ==> !(KeyForList(V1ALPHA2, "n") <= k);
  }

  /** What the two listings show. */
  lemma ListsNeitherOrBoth(db: Db, v: Report, w: Report, selector: Selector)
    requires v == Labelled("v", "1") && w == Labelled("w", "2")
    requires KeyOf(v) in db && db[KeyOf(v)] == Stored(v, 0) && KeyOf(w) in db && db[KeyOf(w)] == Stored(w, 0)
    requires selector(map["a" := "1"]) && !selector(map["a" := "2"])
    ensures ListReports(db, Some(selector), [KeyOf(v), KeyOf(w)]) == Some([])
    ensures ListReports(db, Some(selector), [KeyOf(w), KeyOf(v)]) == Some(Items([Stored(w, 0), Stored(v, 0)]))
  {
    LabelledIsStored("v", "1");
    LabelledIsStored("w", "2");
    assert ValuesAt(db, [KeyOf(v), KeyOf(w)]) == [Stored(v, 0), Stored(w, 0)];
    assert ValuesAt(db, [KeyOf(w), KeyOf(v)]) == [Stored(w, 0), Stored(v, 0)];
    NeitherOrBoth(Stored(v, 0), Stored(w, 0), selector);
  }

  /** Listed second, report v lends its labels to report w. */
  lemma ShownTogether(v: Report, w: Report)
    requires v == Labelled("v", "1") && w == Labelled("w", "2")
    ensures Items([Stored(w, 0), Stored(v, 0)]) == [w.(labels := v.labels), v]
  {
    LabelledIsStored("v", "1");
    LabelledIsStored("w", "2");
    var vals := [Stored(w, 0), Stored(v, 0)];
    assert map["a" := "2"] + map["a" := "1"] == map["a" := "1"];
    assert Leftover(vals, 0) == ZERO_REPORT && Leftover(vals, 1) == w && Leftover(vals, 2) == v;
  }

  /**
    A state that two creates lead to, and a selector that admits report v but not
    report w: walked over as v, w the listing is empty; as w, v it has both.
   */
  lemma PromiseBroken(st: State, selector: Selector) returns (calls: seq<Call>)
    requires Blank(st) && selector(map["a" := "1"]) && !selector(map["a" := "2"])
    ensures LegalCalls(calls) && After(st, calls).Some?
    ensures var db, v, w := After(st, calls).value.db, Labelled("v", "1"), Labelled("w", "2");
            var vw, wv, q := [KeyOf(v), KeyOf(w)], [KeyOf(w), KeyOf(v)], List("n", Some(selector));
            && HandleGet(db, Get("v", "n")).response == Accepted(v)
            && HandleGet(db, Get("w", "n")).response == Accepted(w)
            && Walk(db, q, vw) && HandleList(db, q, vw).response == Listed([])
            && Walk(db, q, wv) && HandleList(db, q, wv).response == Listed([w.(labels := v.labels), v])
  {
    calls := CreatesBoth(st);
    var db, v, w := After(st, calls).value.db, Labelled("v", "1"), Labelled("w", "2");
    KeysDiffer();
    WalksOverBoth(st, v, w);
    LabelledIsStored("v", "1");
    LabelledIsStored("w", "2");
    ListsNeitherOrBoth(db, v, w, selector);
    ShownTogether(v, w);
  }
}

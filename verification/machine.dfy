/**
  The report store under concurrent requests.  Every call to the database and
  every broadcast is one atomic step; between two of them a request keeps what
  it needs in its program counter, and any other request may take steps.
 */
module Machine {
  import opened Wrappers
  import opened Keys
  import opened Decimal
  import opened Codec
  import opened InMemory
  import opened Listing
  import opened Handlers
  import opened Abstraction

  /** A collection request between two items: `next` is the position of the item to delete. */
  datatype Loop = Loop(namespace: string, validDelete: Report -> bool, items: seq<Report>, next: nat)

  /** What a request does next. */
  datatype Pc =
    | Start(q: Request)
    | StoreCreate(report: Report, modified: int)
    | ReadVersion(report: Report, modified: int)
    | StoreUpdate(report: Report, modified: int)
    | StoreForced(report: Report, modified: int)
    | AnnounceAdded(report: Report)
    | StoreDelete(report: Report, loop: Option<Loop>)
    | AnnounceDeleted(report: Report, loop: Option<Loop>)
    | AnnounceObject(fields: Fields, turn: Loop)
    | NextItem(turn: Loop)
    | Done(response: Response)

  /**
    What a call to the database achieved; kept only for what is stated of runs.  A
    removal has the report that the request takes away, and the entry that it finds.
   */
  datatype Record =
    | Created(key: string, value: Value)
    | Updated(key: string, value: Value)
    | Forced(key: string, value: Value, applied: bool)
    | Removal(key: string, fields: Fields, collection: bool, found: Value)

  datatype Shared = Shared(db: Db, log: seq<Event>, history: seq<Record>)

  datatype Sys = Sys(shared: Shared, procs: seq<Pc>)

  predicate ListsNow(pc: Pc) {
    pc.Start? && Lists(pc.q)
  }

  /** `order` is a walk that the database may take if this step lists. */
  ghost predicate StepWalk(db: Db, pc: Pc, order: seq<string>) {
    pc.Start? ==> Walk(db, pc.q, order)
  }

  function Write(s: Shared, r: Report, modified: int, record: Record): Shared {
    s.(db := s.db[KeyOf(r) := Stored(r, modified)], history := s.history + [record])
  }

  function RemovalOf(db: Db, r: Report, loop: Option<Loop>): Record
    requires KeyOf(r) in db
  {
    Removal(KeyOf(r), Marshal(r), loop.Some?, db[KeyOf(r)])
  }

  function Begin(s: Shared, q: Request, order: seq<string>): Pc
    requires Lists(q) ==> forall k :: k in order ==> k in s.db
  {
    match q
    case Get(_, _) => Done(HandleGet(s.db, q).response)
    case List(_, _) => Done(HandleList(s.db, q, order).response)
    case Create(_, _, _, _, _, _, _, modified) => (
      match PlanCreate(q)
      case Answer(response) => Done(response)
      case Proceed(r) => StoreCreate(r, modified))
    case Update(name, ns, _, _, force, _, _, modified) => (
      var fetch := GetReport(s.db, name, ns);
      match if force then PlanForced(q.transform, fetch) else PlanUpdate(q, fetch)
      case Answer(response) => Done(response)
      case Proceed(r) => if force then StoreForced(r, modified) else ReadVersion(r, modified))
    case Delete(name, ns, validDelete, dryRun) => (
      match PlanDelete(validDelete, dryRun, GetReport(s.db, name, ns))
      case Answer(response) => Done(response)
      case Proceed(r) => StoreDelete(r, None))
    case DeleteCollection(ns, validDelete, dryRun, selector) =>
      match ListReports(s.db, selector, order)
      case None => Done(Failed(BadRequest(NotListed)))
      case Some(items) => if IsDryRun(dryRun) then Done(Listed(items)) else NextItem(Loop(ns, validDelete, items, 0))
  }

  /** The first part of Delete inside the collection loop. */
  function BeginItem(s: Shared, l: Loop): Pc {
    if l.next >= |l.items| then Done(Listed(l.items))
    else
      match PlanDelete(l.validDelete, [], GetReport(s.db, l.items[l.next].name, l.namespace))
      case Answer(_) => Done(Failed(BadRequest(NotDeleted)))
      case Proceed(r) => StoreDelete(r, Some(l))
  }

  function Refusal(loop: Option<Loop>): Response {
    Failed(BadRequest(if loop == None then Refused else NotDeleted))
  }

  /** One atomic step of one request. */
  function Advance(s: Shared, pc: Pc, order: seq<string>): (Shared, Pc)
    requires ListsNow(pc) ==> forall k :: k in order ==> k in s.db
  {
    match pc
    case Start(q) => (s, Begin(s, q, order))
    case StoreCreate(r, modified) =>
      if KeyOf(r) in s.db then (s, Done(Failed(BadRequest(Refused))))
      else (Write(s, r, modified, Created(KeyOf(r), Stored(r, modified))), AnnounceAdded(r))
    case ReadVersion(r, modified) => (
      match PlanBump(r, GetReport(s.db, r.name, r.namespace))
      case Answer(response) => (s, Done(response))
      case Proceed(bumped) => (s, StoreUpdate(bumped, modified)))
    case StoreUpdate(r, modified) =>
      if KeyOf(r) in s.db then (Write(s, r, modified, Updated(KeyOf(r), Stored(r, modified))), AnnounceAdded(r))
      else (s, Done(Failed(BadRequest(Refused))))
    case StoreForced(r, modified) =>
      if KeyOf(r) in s.db then (Write(s, r, modified, Forced(KeyOf(r), Stored(r, modified), true)), AnnounceAdded(r))
      else (s.(history := s.history + [Forced(KeyOf(r), Stored(r, modified), false)]), AnnounceAdded(r))
    case AnnounceAdded(r) => (s.(log := s.log + [Added(r)]), Done(Accepted(r)))
    case StoreDelete(r, loop) =>
      if KeyOf(r) in s.db then
        (s.(db := s.db - {KeyOf(r)}, history := s.history + [RemovalOf(s.db, r, loop)]), AnnounceDeleted(r, loop))
      else (s, Done(Refusal(loop)))
    case AnnounceDeleted(r, loop) =>
      (s.(log := s.log + [Deleted(r)]),
       match loop case None => Done(Removed(Marshal(r))) case Some(l) => AnnounceObject(Marshal(r), l))
    case AnnounceObject(f, l) => (s.(log := s.log + [DeletedObject(f)]), NextItem(l.(next := l.next + 1)))
    case NextItem(l) => (s, BeginItem(s, l))
    case Done(_) => (s, pc)
  }

  /** A request arrives, a request takes a step, or another store changes entries of its own. */
  datatype Action = Arrive(q: Request) | Move(i: nat, order: seq<string>) | Foreign(db: Db)

  ghost predicate Enabled(s: Sys, a: Action) {
    match a
    case Arrive(_) => true
    case Move(i, order) => i < |s.procs| && StepWalk(s.shared.db, s.procs[i], order)
    case Foreign(db) => Agree(s.shared.db, db)
  }

  ghost function Perform(s: Sys, a: Action): Sys
    requires Enabled(s, a)
  {
    match a
    case Arrive(q) => s.(procs := s.procs + [Start(q)])
    case Move(i, order) =>
      var (shared, pc) := Advance(s.shared, s.procs[i], order);
      Sys(shared, s.procs[i := pc])
    case Foreign(db) => s.(shared := s.shared.(db := db))
  }

  ghost predicate Initial(s: Sys) {
    && s.procs == [] && s.shared.log == [] && s.shared.history == []
    && forall k :: k in s.shared.db ==> !InRoot(k)
  }

  /** The state after a schedule, or None when one of its actions was not enabled. */
  ghost function Execute(s: Sys, actions: seq<Action>): Option<Sys> {
    if |actions| == 0 then Some(s)
    else
      match Execute(s, actions[..|actions| - 1])
      case None => None
      case Some(before) =>
        var a := actions[|actions| - 1];
        if Enabled(before, a) then Some(Perform(before, a)) else None
  }

  ghost predicate Reachable(s0: Sys, actions: seq<Action>) {
    Initial(s0) && Execute(s0, actions).Some?
  }

  ghost function Reached(s0: Sys, actions: seq<Action>): Sys
    requires Reachable(s0, actions)
  {
    Execute(s0, actions).value
  }

  /** Unrolls the last action of a schedule. */
  lemma LastAction(s0: Sys, actions: seq<Action>)
    requires Reachable(s0, actions) && |actions| > 0
    ensures var prior, a := actions[..|actions| - 1], actions[|actions| - 1];
            && Reachable(s0, prior)
            && Enabled(Reached(s0, prior), a)
            && Reached(s0, actions) == Perform(Reached(s0, prior), a)
  {
  }

  // ----- The reachable-state invariant -----

  /** Whatever a request is about to write has a version that parses, and what it is about to delete too. */
  predicate PcSound(pc: Pc) {
    match pc
    case StoreCreate(r, _) => ParseInt(r.resourceVersion).Some?
    case StoreUpdate(r, _) => ParseInt(r.resourceVersion).Some?
    case StoreForced(r, _) => ParseInt(r.resourceVersion).Some?
    case StoreDelete(r, _) => ParseInt(r.resourceVersion).Some?
    case Done(Failed(BadRequest(cause))) => cause != BadVersion && cause != Undecodable && cause != NotListed
    case Done(Failed(FetchFailed(cause))) => cause == Missing
    case _ => true
  }

  ghost predicate SysSound(s: Sys) {
    AllSound(s.shared.db) && forall i :: 0 <= i < |s.procs| ==> PcSound(s.procs[i])
  }

  lemma BumpParses(r: Report, fetch: Fetch)
    requires PlanBump(r, fetch).Proceed?
    ensures var v := ParseInt(fetch.report.resourceVersion).value;
            ParseInt(PlanBump(r, fetch).report.resourceVersion) == Some(Successor(v))
  {
    var v := ParseInt(fetch.report.resourceVersion).value;
    ParseFormatInt(Successor(v));
  }

  lemma ListingSucceeds(db: Db, ns: string, selector: Option<Selector>, order: seq<string>)
    requires AllSound(db) && Enumerates(order, db, KeyForList(V1ALPHA2, ns))
    ensures ListReports(db, selector, order).Some?
  {
    RootExact(V1ALPHA2, V1ALPHA2, "", ns);
    assert forall v :: v in ValuesAt(db, order) ==> v.data.Json?;
  }

  lemma BeginIsSound(s: Shared, q: Request, order: seq<string>)
    requires AllSound(s.db) && Walk(s.db, q, order)
    ensures PcSound(Begin(s, q, order))
  {
    match q
    case Create(_, _, _, _, _, _, _, _) => ParseFormatInt(1);
    case Update(name, ns, _, _, _, _, _, _) =>
      FetchIsSound(s.db, name, ns);
      ParseFormatInt(1);
      FirstVersion();
    case Delete(name, ns, _, _) => FetchIsSound(s.db, name, ns);
    case List(ns, selector) => ListingSucceeds(s.db, ns, selector, order);
    case DeleteCollection(ns, _, _, selector) => ListingSucceeds(s.db, ns, selector, order);
    case Get(_, _) =>
  }

  lemma AdvanceIsSound(s: Shared, pc: Pc, order: seq<string>)
    requires AllSound(s.db) && PcSound(pc) && StepWalk(s.db, pc, order)
    ensures AllSound(Advance(s, pc, order).0.db) && PcSound(Advance(s, pc, order).1)
  {
    match pc
    case Start(q) => BeginIsSound(s, q, order);
    case StoreCreate(r, modified) => PutKeepsSound(s.db, r, modified);
    case ReadVersion(r, _) =>
      FetchIsSound(s.db, r.name, r.namespace);
      var fetch := GetReport(s.db, r.name, r.namespace);
      if PlanBump(r, fetch).Proceed? {
        BumpParses(r, fetch);
      }
    case StoreUpdate(r, modified) => PutKeepsSound(s.db, r, modified);
    case StoreForced(r, modified) => PutKeepsSound(s.db, r, modified);
    case _ =>
  }

  /**
    In every state that any interleaving can reach: each key agrees with the
    report decoded from its value, each version parses, and so does each version
    that a request is about to write.
   */
  lemma {:induction false} ReachableIsSound(s0: Sys, actions: seq<Action>)
    requires Reachable(s0, actions)
    ensures SysSound(Reached(s0, actions))
  {
    if |actions| > 0 {
      LastAction(s0, actions);
      var n := |actions| - 1;
      ReachableIsSound(s0, actions[..n]);
      var before := Reached(s0, actions[..n]);
      match actions[n]
      case Arrive(_) =>
      case Move(i, order) => AdvanceIsSound(before.shared, before.procs[i], order);
      case Foreign(db) =>
    }
  }

  /**
    In every reachable state a fetch fails only because nothing is there, a delete
    is turned down only for that, by validation or as a dry run, an update finds a
    version that it can follow, and every listing succeeds.
   */
  lemma NothingIsUnreadable(s0: Sys, actions: seq<Action>, name: string, namespace: string, validDelete: Report -> bool,
                            dryRun: seq<string>, selector: Option<Selector>, order: seq<string>)
    requires Reachable(s0, actions)
    requires Enumerates(order, Reached(s0, actions).shared.db, KeyForList(V1ALPHA2, namespace))
    ensures var db := Reached(s0, actions).shared.db;
            var fetch := GetReport(db, name, namespace);
            && (fetch == NotFetched(Missing) || fetch == Fetched(ReportAt(db[Key(V1ALPHA2, name, namespace)])))
            && (PlanDelete(validDelete, dryRun, fetch).Proceed? <==>
                fetch.Fetched? && validDelete(fetch.report) && !IsDryRun(dryRun))
            && (forall r: Report :: PlanBump(r, fetch).Proceed? <==> fetch.Fetched?)
            && ListReports(db, selector, order).Some?
  {
    ReachableIsSound(s0, actions);
    FetchIsSound(Reached(s0, actions).shared.db, name, namespace);
    ListingSucceeds(Reached(s0, actions).shared.db, namespace, selector, order);
  }
}

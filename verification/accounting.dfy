/**
  What holds of every reachable state, whatever the interleaving: events are
  neither lost nor invented nor altered, keys live and die in turn, versions stay
  bounded.
 */
module Accounting {
  import opened Wrappers
  import opened Keys
  import opened Decimal
  import opened Codec
  import opened InMemory
  import opened Listing
  import opened Handlers
  import opened Abstraction
  import opened Machine

  // ----- What one step adds -----

  /** The event that a step broadcasts. */
  function Says(pc: Pc): seq<Event> {
    match pc
    case AnnounceAdded(r) => [Added(r)]
    case AnnounceDeleted(r, _) => [Deleted(r)]
    case AnnounceObject(f, _) => [DeletedObject(f)]
    case _ => []
  }

  /** The record of what a step's database call achieves. */
  function Achieves(db: Db, pc: Pc): seq<Record> {
    match pc
    case StoreCreate(r, m) => if KeyOf(r) in db then [] else [Created(KeyOf(r), Stored(r, m))]
    case StoreUpdate(r, m) => if KeyOf(r) in db then [Updated(KeyOf(r), Stored(r, m))] else []
    case StoreForced(r, m) => [Forced(KeyOf(r), Stored(r, m), KeyOf(r) in db)]
    case StoreDelete(r, loop) => if KeyOf(r) in db then [RemovalOf(db, r, loop)] else []
    case _ => []
  }

  /** What a record does to the database. */
  function Replayed(db: Db, record: Record): Db {
    match record
    case Created(k, v) => db[k := v]
    case Updated(k, v) => db[k := v]
    case Forced(k, v, applied) => if applied then db[k := v] else db
    case Removal(k, _, _, _) => db - {k}
  }

  /** A step adds to the log what it says and to the history what it achieves, and does that to the database. */
  lemma StepAdds(s: Shared, pc: Pc, order: seq<string>)
    requires StepWalk(s.db, pc, order)
    ensures var s', records := Advance(s, pc, order).0, Achieves(s.db, pc);
            && s'.log == s.log + Says(pc)
            && s'.history == s.history + records
            && s'.db == (if |records| == 0 then s.db else Replayed(s.db, records[0]))
  {
  }

  // ----- Conservation of events -----

  /** A property of reports as they are encoded, and of the key they go under. */
  type Subject = (string, Fields) -> bool

  function FieldsKey(f: Fields): string {
    Key(V1ALPHA2, Overwrite(f.name, ""), Overwrite(f.namespace, ""))
  }

  function AddedTo(p: Subject): Event -> nat {
    (e: Event) => if e.Added? && p(KeyOf(e.report), Marshal(e.report)) then 1 else 0
  }

  function DeletedFrom(p: Subject): Event -> nat {
    (e: Event) => match e
                  case Added(_) => 0
                  case Deleted(r) => if p(KeyOf(r), Marshal(r)) then 1 else 0
                  case DeletedObject(f) => if p(FieldsKey(f), f) then 1 else 0
  }

  /** The Added events that a request still owes. */
  function OwesAdded(p: Subject): Pc -> nat {
    (pc: Pc) => if pc.AnnounceAdded? && p(KeyOf(pc.report), Marshal(pc.report)) then 1 else 0
  }

  /** The Deleted events that a request still owes: a collection request owes two for each report. */
  function OwesDeleted(p: Subject): Pc -> nat {
    (pc: Pc) => match pc
                case AnnounceDeleted(r, loop) => if p(KeyOf(r), Marshal(r)) then (if loop == None then 1 else 2) else 0
                case AnnounceObject(f, _) => if p(FieldsKey(f), f) then 1 else 0
                case _ => 0
  }

  /** Successful creates, successful updates, and forced updates whether they succeeded or not. */
  function Writes(p: Subject): Record -> nat {
    (r: Record) => if !r.Removal? && p(r.key, FieldsOf(r.value)) then 1 else 0
  }

  /** Successful deletes, by the report that the request meant to delete, counted twice for a collection request. */
  function Removals(p: Subject): Record -> nat {
    (r: Record) => if r.Removal? && p(r.key, r.fields) then (if r.collection then 2 else 1) else 0
  }

  ghost predicate Balanced(s: Sys, p: Subject) {
    && Sum(s.shared.log, AddedTo(p)) + Sum(s.procs, OwesAdded(p)) == Sum(s.shared.history, Writes(p))
    && Sum(s.shared.log, DeletedFrom(p)) + Sum(s.procs, OwesDeleted(p)) == Sum(s.shared.history, Removals(p))
  }

  /** A step passes on exactly what it owes, says and achieves. */
  lemma StepOwesAdded(s: Shared, pc: Pc, order: seq<string>, p: Subject)
    requires StepWalk(s.db, pc, order)
    ensures Sum(Says(pc), AddedTo(p)) + OwesAdded(p)(Advance(s, pc, order).1) ==
            OwesAdded(p)(pc) + Sum(Achieves(s.db, pc), Writes(p))
  {
    if pc.StoreCreate? || pc.StoreUpdate? || pc.StoreForced? {
      assert FieldsOf(Stored(pc.report, pc.modified)) == Marshal(pc.report);
    }
  }

  lemma StepOwesDeleted(s: Shared, pc: Pc, order: seq<string>, p: Subject)
    requires StepWalk(s.db, pc, order)
    ensures Sum(Says(pc), DeletedFrom(p)) + OwesDeleted(p)(Advance(s, pc, order).1) ==
            OwesDeleted(p)(pc) + Sum(Achieves(s.db, pc), Removals(p))
  {
    assert pc.AnnounceDeleted? ==> FieldsKey(Marshal(pc.report)) == KeyOf(pc.report);
  }

  lemma MoveBalances(s: Sys, i: nat, order: seq<string>, p: Subject)
    requires Enabled(s, Move(i, order)) && Balanced(s, p)
    ensures Balanced(Perform(s, Move(i, order)), p)
  {
    var pc := s.procs[i];
    var says, records, pc' := Says(pc), Achieves(s.shared.db, pc), Advance(s.shared, pc, order).1;
    StepAdds(s.shared, pc, order);
    StepOwesAdded(s.shared, pc, order, p);
    StepOwesDeleted(s.shared, pc, order, p);
    SumJoin(s.shared.log, says, AddedTo(p));
    SumJoin(s.shared.log, says, DeletedFrom(p));
    SumJoin(s.shared.history, records, Writes(p));
    SumJoin(s.shared.history, records, Removals(p));
    SumUpdate(s.procs, i, pc', OwesAdded(p));
    SumUpdate(s.procs, i, pc', OwesDeleted(p));
  }

  lemma PerformBalances(s: Sys, a: Action, p: Subject)
    requires Enabled(s, a) && Balanced(s, p)
    ensures Balanced(Perform(s, a), p)
  {
    match a
    case Arrive(q) =>
      SumSnoc(s.procs, Start(q), OwesAdded(p));
      SumSnoc(s.procs, Start(q), OwesDeleted(p));
    case Move(i, order) =>
      MoveBalances(s, i, order, p);
    case Foreign(_) =>
  }

  /**
    In every reachable state, events sent and events still owed add up to what the
    database calls achieved: for each key, for each text of a report, and for any
    other property that one may pick events and calls by.
   */
  lemma {:induction false} EventsAreConserved(s0: Sys, actions: seq<Action>, p: Subject)
    requires Reachable(s0, actions)
    ensures Balanced(Reached(s0, actions), p)
  {
    if |actions| > 0 {
      LastAction(s0, actions);
      var n := |actions| - 1;
      EventsAreConserved(s0, actions[..n], p);
      PerformBalances(Reached(s0, actions[..n]), actions[n], p);
    }
  }

  /** In particular events balance key by key, and text by text. */
  lemma KeysAndTextsBalance(s0: Sys, actions: seq<Action>, key: string, text: Fields)
    requires Reachable(s0, actions)
    ensures Balanced(Reached(s0, actions), (k, _) => k == key)
    ensures Balanced(Reached(s0, actions), (_, f) => f == text)
  {
    EventsAreConserved(s0, actions, (k, _) => k == key);
    EventsAreConserved(s0, actions, (_, f) => f == text);
  }

  lemma {:induction false} NothingOwed(procs: seq<Pc>, p: Subject)
    requires forall i :: 0 <= i < |procs| ==> procs[i].Done?
    ensures Sum(procs, OwesAdded(p)) == Sum(procs, OwesDeleted(p)) == 0
  {
    if |procs| > 0 {
      NothingOwed(procs[..|procs| - 1], p);
    }
  }

  /** Once every request is done, the log has exactly the events that the database calls call for. */
  lemma QuietLogIsComplete(s0: Sys, actions: seq<Action>, p: Subject)
    requires Reachable(s0, actions)
    requires forall i :: 0 <= i < |Reached(s0, actions).procs| ==> Reached(s0, actions).procs[i].Done?
    ensures var s := Reached(s0, actions).shared;
            && Sum(s.log, AddedTo(p)) == Sum(s.history, Writes(p))
            && Sum(s.log, DeletedFrom(p)) == Sum(s.history, Removals(p))
  {
    EventsAreConserved(s0, actions, p);
    NothingOwed(Reached(s0, actions).procs, p);
  }

  // ----- The life of a key -----

  /** What the history leaves under `key`: the value last written since it was created, unless it was removed since. */
  function Held(history: seq<Record>, key: string): Option<Value> {
    if |history| == 0 then None
    else HeldAfter(Held(history[..|history| - 1], key), history[|history| - 1], key)
  }

  function HeldAfter(held: Option<Value>, last: Record, key: string): Option<Value> {
    if last.key != key then held
    else
      match last
      case Created(_, v) => Some(v)
      case Updated(_, v) => Some(v)
      case Forced(_, v, applied) => if applied then Some(v) else held
      case Removal(_, _, _, _) => None
  }

  /** A create, and a forced update that fails, find the key dead; everything else finds it alive. */
  predicate Due(held: Option<Value>, last: Record, key: string) {
    last.key == key ==> (held == None <==> last.Created? || (last.Forced? && !last.applied))
  }

  predicate InTurn(history: seq<Record>, key: string) {
    |history| == 0 ||
    var last, earlier := history[|history| - 1], history[..|history| - 1];
    InTurn(earlier, key) && Due(Held(earlier, key), last, key)
  }

  lemma TurnSnoc(history: seq<Record>, last: Record, key: string)
    ensures InTurn(history + [last], key) <==> InTurn(history, key) && Due(Held(history, key), last, key)
    ensures Held(history + [last], key) == HeldAfter(Held(history, key), last, key)
  {
    assert (history + [last])[..|history|] == history;
  }

  ghost predicate Living(s: Shared, key: string) {
    && InTurn(s.history, key)
    && Held(s.history, key) == if key in s.db then Some(s.db[key]) else None
  }

  lemma RecordKeepsLiving(s: Shared, record: Record, key: string)
    requires Living(s, key)
    requires record.key in s.db <==> !(record.Created? || (record.Forced? && !record.applied))
    ensures Living(s.(db := Replayed(s.db, record), history := s.history + [record]), key)
  {
    TurnSnoc(s.history, record, key);
  }

  lemma StepKeepsLiving(s: Shared, pc: Pc, order: seq<string>, key: string)
    requires StepWalk(s.db, pc, order) && Living(s, key)
    ensures Living(Advance(s, pc, order).0, key)
  {
    StepAdds(s, pc, order);
    var records := Achieves(s.db, pc);
    if |records| == 0 {
      assert s.history + records == s.history;
    } else {
      RecordKeepsLiving(s, records[0], key);
      assert s.history + records == s.history + [records[0]];
    }
  }

  /** In every reachable state the database holds, key by key, what its history leaves, and all calls came in turn. */
  lemma {:induction false} KeysLiveInTurn(s0: Sys, actions: seq<Action>, key: string)
    requires Reachable(s0, actions) && InRoot(key)
    ensures Living(Reached(s0, actions).shared, key)
  {
    if |actions| > 0 {
      LastAction(s0, actions);
      var n := |actions| - 1;
      KeysLiveInTurn(s0, actions[..n], key);
      var before := Reached(s0, actions[..n]);
      match actions[n]
      case Arrive(_) =>
      case Move(i, order) => StepKeepsLiving(before.shared, before.procs[i], order, key);
      case Foreign(_) =>
    }
  }

  /** Under any interleaving, Get answers the last successful write since the last successful delete, or not-found. */
  lemma GetAnswersTheLastWrite(s0: Sys, actions: seq<Action>, name: string, namespace: string)
    requires Reachable(s0, actions)
    ensures var s := Reached(s0, actions).shared;
            Advance(s, Start(Get(name, namespace)), []) ==
            (s, Done(match Held(s.history, Key(V1ALPHA2, name, namespace))
                     case None => Failed(NotFound)
                     case Some(v) => Accepted(ReportAt(v))))
  {
    RootExact(V1ALPHA2, V1ALPHA2, name, namespace);
    KeysLiveInTurn(s0, actions, Key(V1ALPHA2, name, namespace));
    ReachableIsSound(s0, actions);
    FetchIsSound(Reached(s0, actions).shared.db, name, namespace);
  }

  /** The creates (true) and removals (false) of `key`, in order. */
  function LifeOf(history: seq<Record>, key: string): seq<bool> {
    if |history| == 0 then []
    else
      var last := history[|history| - 1];
      LifeOf(history[..|history| - 1], key) +
      if last.key == key && last.Created? then [true]
      else if last.key == key && last.Removal? then [false] else []
  }

  lemma {:induction false} LifeAlternates(history: seq<Record>, key: string)
    requires InTurn(history, key)
    ensures var life := LifeOf(history, key);
            && (forall i :: 0 <= i < |life| ==> (life[i] <==> i % 2 == 0))
            && (Held(history, key).Some? <==> |life| % 2 == 1)
  {
    if |history| > 0 {
      LifeAlternates(history[..|history| - 1], key);
    }
  }

  /** Creates and deletes of a key strictly alternate, a create first, and the last decides whether it is there. */
  lemma CreatesAndDeletesAlternate(s0: Sys, actions: seq<Action>, key: string)
    requires Reachable(s0, actions) && InRoot(key)
    ensures var s := Reached(s0, actions).shared;
            var life := LifeOf(s.history, key);
            && (forall i :: 0 <= i < |life| ==> (life[i] <==> i % 2 == 0))
            && (key in s.db <==> |life| % 2 == 1)
  {
    KeysLiveInTurn(s0, actions, key);
    LifeAlternates(Reached(s0, actions).shared.history, key);
  }

  ghost function LiveKeys(db: Db): set<string> {
    set k | k in db && InRoot(k)
  }

  const CREATES: Record -> nat := (r: Record) => if r.Created? then 1 else 0
  const REMOVALS: Record -> nat := (r: Record) => if r.Removal? then 1 else 0

  lemma LivePut(db: Db, key: string, v: Value)
    requires InRoot(key)
    ensures |LiveKeys(db[key := v])| == |LiveKeys(db)| + if key in db then 0 else 1
  {
    assert LiveKeys(db[key := v]) == LiveKeys(db) + {key};
    if key in db {
      assert LiveKeys(db) + {key} == LiveKeys(db);
    }
  }

  lemma LiveDrop(db: Db, key: string)
    requires InRoot(key) && key in db
    ensures |LiveKeys(db - {key})| + 1 == |LiveKeys(db)|
  {
    assert LiveKeys(db) == LiveKeys(db - {key}) + {key};
  }

  lemma LiveStep(s: Shared, pc: Pc, order: seq<string>)
    requires StepWalk(s.db, pc, order)
    ensures var s' := Advance(s, pc, order).0;
            |LiveKeys(s'.db)| + Sum(s.history, CREATES) + Sum(s'.history, REMOVALS) ==
            |LiveKeys(s.db)| + Sum(s'.history, CREATES) + Sum(s.history, REMOVALS)
  {
    StepAdds(s, pc, order);
    var records := Achieves(s.db, pc);
    if |records| == 0 {
      assert s.history + records == s.history;
    } else {
      var record := records[0];
      assert s.history + records == s.history + [record];
      SumSnoc(s.history, record, CREATES);
      SumSnoc(s.history, record, REMOVALS);
      KeysAreInRoot(pc.report);
      match record
      case Created(k, v) => LivePut(s.db, k, v);
      case Updated(k, v) => LivePut(s.db, k, v);
      case Forced(k, v, applied) =>
        if applied {
          LivePut(s.db, k, v);
        }
      case Removal(k, _, _, _) => LiveDrop(s.db, k);
    }
  }

  /** The number of stored reports is the number of successful creates less that of successful deletes. */
  lemma {:induction false} LiveKeysAreCounted(s0: Sys, actions: seq<Action>)
    requires Reachable(s0, actions)
    ensures var s := Reached(s0, actions).shared;
            |LiveKeys(s.db)| + Sum(s.history, REMOVALS) == Sum(s.history, CREATES)
  {
    if |actions| == 0 {
      assert LiveKeys(s0.shared.db) == {};
    } else {
      LastAction(s0, actions);
      var n := |actions| - 1;
      LiveKeysAreCounted(s0, actions[..n]);
      var before := Reached(s0, actions[..n]);
      match actions[n]
      case Arrive(_) =>
      case Move(i, order) => LiveStep(before.shared, before.procs[i], order);
      case Foreign(db) => assert LiveKeys(db) == LiveKeys(before.shared.db);
    }
  }

  // ----- Versions -----

  function Updates(key: string): Record -> nat {
    (r: Record) => if r.key == key && r.Updated? then 1 else 0
  }

  function VersionOf(r: Report): int {
    match ParseInt(r.resourceVersion) case None => 0 case Some(v) => v
  }

  ghost predicate DbBounded(db: Db, key: string, made: nat) {
    key in db && made < MAX64 ==> 1 <= VersionOf(ReportAt(db[key])) <= 1 + made
  }

  /** The stored version is at most one more than the updates made; one about to be written, at most two more. */
  ghost predicate Bounded(s: Sys, key: string) {
    var made := Sum(s.shared.history, Updates(key));
    && DbBounded(s.shared.db, key, made)
    && forall i :: 0 <= i < |s.procs| ==> PcBounded(s.procs[i], key, made)
  }

  predicate PcBounded(pc: Pc, key: string, made: nat) {
    match pc
    case StoreCreate(r, _) => VersionOf(r) == 1
    case StoreForced(r, _) => VersionOf(r) == 1
    case StoreUpdate(r, _) => KeyOf(r) == key && made + 1 < MAX64 ==> 1 <= VersionOf(r) <= 2 + made
    case _ => true
  }

  lemma BeginIsBounded(s: Shared, q: Request, order: seq<string>, key: string, made: nat)
    requires Walk(s.db, q, order)
    ensures PcBounded(Begin(s, q, order), key, made)
  {
    ParseFormatInt(1);
    FirstVersion();
  }

  lemma BumpIsBounded(db: Db, r: Report, key: string, made: nat)
    requires AllSound(db) && PlanBump(r, GetReport(db, r.name, r.namespace)).Proceed?
    requires DbBounded(db, key, made)
    ensures var bumped := PlanBump(r, GetReport(db, r.name, r.namespace)).report;
            KeyOf(bumped) == KeyOf(r) && (KeyOf(r) == key && made + 1 < MAX64 ==> 1 <= VersionOf(bumped) <= 2 + made)
  {
    var fetch := GetReport(db, r.name, r.namespace);
    FetchIsSound(db, r.name, r.namespace);
    BumpParses(r, fetch);
  }

  lemma WriteIsBounded(db: Db, r: Report, modified: int, key: string, made: nat, made': nat)
    requires DbBounded(db, key, made) && made <= made'
    requires KeyOf(r) == key && made' < MAX64 ==> 1 <= VersionOf(r) <= 1 + made'
    ensures DbBounded(db[KeyOf(r) := Stored(r, modified)], key, made')
  {
    StoredIsSound(r, modified);
    assert VersionOf(Norm(r)) == VersionOf(r);
  }

  lemma DbStaysBounded(s: Shared, pc: Pc, order: seq<string>, key: string)
    requires StepWalk(s.db, pc, order)
    requires DbBounded(s.db, key, Sum(s.history, Updates(key))) && PcBounded(pc, key, Sum(s.history, Updates(key)))
    ensures var s' := Advance(s, pc, order).0;
            && Sum(s.history, Updates(key)) <= Sum(s'.history, Updates(key))
            && DbBounded(s'.db, key, Sum(s'.history, Updates(key)))
  {
    StepAdds(s, pc, order);
    var records := Achieves(s.db, pc);
    if |records| == 0 {
      assert s.history + records == s.history;
    } else {
      assert s.history + records == s.history + [records[0]];
      SumSnoc(s.history, records[0], Updates(key));
      var made, made' := Sum(s.history, Updates(key)), Sum(s.history + [records[0]], Updates(key));
      if !pc.StoreDelete? {
        WriteIsBounded(s.db, pc.report, pc.modified, key, made, made');
      }
    }
  }

  lemma PcStaysBounded(s: Shared, pc: Pc, order: seq<string>, key: string, made: nat)
    requires AllSound(s.db) && StepWalk(s.db, pc, order) && DbBounded(s.db, key, made) && PcBounded(pc, key, made)
    ensures PcBounded(Advance(s, pc, order).1, key, made)
  {
    if pc.Start? {
      BeginIsBounded(s, pc.q, order, key, made);
    } else if pc.ReadVersion? && PlanBump(pc.report, GetReport(s.db, pc.report.name, pc.report.namespace)).Proceed? {
      BumpIsBounded(s.db, pc.report, key, made);
    }
  }

  lemma PcBoundLoosens(pc: Pc, key: string, made: nat, made': nat)
    requires PcBounded(pc, key, made) && made <= made'
    ensures PcBounded(pc, key, made')
  {
  }

  lemma MoveIsBounded(s: Sys, i: nat, order: seq<string>, key: string)
    requires Enabled(s, Move(i, order)) && AllSound(s.shared.db) && Bounded(s, key)
    ensures Bounded(Perform(s, Move(i, order)), key)
  {
    var (shared, pc) := Advance(s.shared, s.procs[i], order);
    var made, made' := Sum(s.shared.history, Updates(key)), Sum(shared.history, Updates(key));
    DbStaysBounded(s.shared, s.procs[i], order, key);
    PcStaysBounded(s.shared, s.procs[i], order, key, made);
    var procs := s.procs[i := pc];
    forall j | 0 <= j < |procs|
      ensures PcBounded(procs[j], key, made')
    {
      PcBoundLoosens(procs[j], key, made, made');
    }
  }

  /**
    In every reachable state, until the updates made to a key reach the largest
    64-bit integer, its version lies between 1 and one more than their number,
    although reads and writes of different requests interleave.
   */
  lemma {:induction false} VersionsAreBounded(s0: Sys, actions: seq<Action>, key: string)
    requires Reachable(s0, actions) && InRoot(key)
    ensures Bounded(Reached(s0, actions), key)
  {
    if |actions| > 0 {
      LastAction(s0, actions);
      var n := |actions| - 1;
      ReachableIsSound(s0, actions[..n]);
      VersionsAreBounded(s0, actions[..n], key);
      var before := Reached(s0, actions[..n]);
      match actions[n]
      case Arrive(_) =>
      case Move(i, order) => MoveIsBounded(before, i, order, key);
      case Foreign(_) =>
    }
  }
}

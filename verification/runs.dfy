/**
  Sequential runs: requests served one after the other, while the other stores
  of the same database do what they like with their own entries.
 */
module Runs {
  import opened Wrappers
  import opened Keys
  import opened Decimal
  import opened Codec
  import opened InMemory
  import opened Listing
  import opened Handlers
  import opened Abstraction

  datatype Call =
    | Own(q: Request, order: seq<string>)
    | Foreign(db: Db)

  ghost predicate Possible(st: State, c: Call) {
    match c
    case Own(q, order) => Walk(st.db, q, order)
    case Foreign(db) => Agree(st.db, db)
  }

  ghost function EffectOf(st: State, c: Call): Effect
    requires Possible(st, c)
  {
    match c
    case Own(q, order) => Handle(st.db, q, order).effect
    case Foreign(_) => Nothing
  }

  ghost function Next(st: State, c: Call): State
    requires Possible(st, c)
  {
    match c
    case Own(_, _) => Apply(st, EffectOf(st, c))
    case Foreign(db) => State(db, st.log)
  }

  /** The state after a run, or None when one of its calls could not have happened. */
  ghost function After(st: State, calls: seq<Call>): Option<State> {
    if |calls| == 0 then Some(st)
    else
      match After(st, calls[..|calls| - 1])
      case None => None
      case Some(before) =>
        var c := calls[|calls| - 1];
        if Possible(before, c) then Some(Next(before, c)) else None
  }

  /** A store that has not served anything: no namespaced entries and no events. */
  ghost predicate Blank(st: State) {
    st.log == [] && forall k :: k in st.db ==> !InRoot(k)
  }

  ghost predicate LegalCalls(calls: seq<Call>) {
    forall c :: c in calls && c.Own? ==> Legal(c.q)
  }

  lemma NextIsSound(st: State, c: Call)
    requires AllSound(st.db) && Possible(st, c)
    ensures AllSound(Next(st, c).db) && Honest(st.db, EffectOf(st, c))
  {
    if c.Own? {
      HandleIsHonest(st.db, c.q, c.order);
      HonestKeepsSound(st, EffectOf(st, c));
    }
  }

  /** In every state of every run, keys agree with the reports under them and versions parse. */
  lemma {:induction false} RunsStaySound(st: State, calls: seq<Call>)
    requires Blank(st) && After(st, calls).Some?
    ensures AllSound(After(st, calls).value.db)
  {
    var n := |calls| - 1;
    if n >= 0 {
      RunsStaySound(st, calls[..n]);
      NextIsSound(After(st, calls[..n]).value, calls[n]);
    }
  }

  // ----- Version counting -----

  function CountAfter(e: Effect, key: string, count: nat): nat {
    if e.Wrote? && KeyOf(e.report) == key then (if e.kind == Bump then count + 1 else 0) else count
  }

  /** How many updates were written to `key` since it was last created or forced. */
  ghost function Bumps(st: State, calls: seq<Call>, key: string): nat
    requires After(st, calls).Some?
  {
    var n := |calls| - 1;
    if n < 0 then 0
    else CountAfter(EffectOf(After(st, calls[..n]).value, calls[n]), key, Bumps(st, calls[..n], key))
  }

  function TextAt(db: Db, key: string): string
    requires key in db
  {
    ReportAt(db[key]).resourceVersion
  }

  /** One step writes the version that its kind of write asks for, and keeps every other entry. */
  lemma VersionStep(st: State, c: Call, key: string)
    requires AllSound(st.db) && Possible(st, c) && InRoot(key) && key in Next(st, c).db
    ensures var e := EffectOf(st, c);
            var text := TextAt(Next(st, c).db, key);
            if e.Wrote? && KeyOf(e.report) == key then
              if e.kind == Bump then key in st.db && text == Follow(TextAt(st.db, key)) else text == "1"
            else key in st.db && text == TextAt(st.db, key)
  {
    NextIsSound(st, c);
    FirstVersion();
    var e := EffectOf(st, c);
    if e.Wrote? && KeyOf(e.report) == key {
      StoredIsSound(e.report, e.modified);
    }
  }

  /** The texts `texts(1)`, `texts(2)`, ... are those that updates write one over the other. */
  ghost predicate Succeed(texts: nat -> string) {
    texts(1) == "1" && forall n: nat :: Follow(texts(n)) == texts(n + 1)
  }

  lemma CountStep(st: State, c: Call, key: string, count: nat, texts: nat -> string)
    requires AllSound(st.db) && Possible(st, c) && InRoot(key) && key in Next(st, c).db
    requires texts(1) == "1" && Follow(texts(1 + count)) == texts(1 + count + 1)
    requires key in st.db ==> TextAt(st.db, key) == texts(1 + count)
    ensures TextAt(Next(st, c).db, key) == texts(1 + CountAfter(EffectOf(st, c), key, count))
  {
    VersionStep(st, c, key);
  }

  lemma {:induction false} VersionsFollow(st: State, calls: seq<Call>, key: string, texts: nat -> string)
    requires Blank(st) && After(st, calls).Some? && InRoot(key) && key in After(st, calls).value.db
    requires Succeed(texts)
    ensures TextAt(After(st, calls).value.db, key) == texts(1 + Bumps(st, calls, key))
  {
    var n := |calls| - 1;
    if n >= 0 {
      var before, c := After(st, calls[..n]).value, calls[n];
      RunsStaySound(st, calls[..n]);
      if key in before.db {
        VersionsFollow(st, calls[..n], key, texts);
      }
      CountStep(before, c, key, Bumps(st, calls[..n], key), texts);
    }
  }

  lemma VersionTextsSucceed()
    ensures Succeed(VersionText)
  {
    FirstVersion();
    forall n: nat
      ensures Follow(VersionText(n)) == VersionText(n + 1)
    {
      VersionTextFollows(n);
    }
  }

  /** A stored version is 1 plus that count, in 64-bit arithmetic. */
  lemma VersionsCount(st: State, calls: seq<Call>, key: string)
    requires Blank(st) && After(st, calls).Some? && InRoot(key) && key in After(st, calls).value.db
    ensures TextAt(After(st, calls).value.db, key) == VersionText(1 + Bumps(st, calls, key))
  {
    VersionTextsSucceed();
    VersionsFollow(st, calls, key, VersionText);
  }

  lemma VersionReads(text: string, n: nat)
    requires text == VersionText(n)
    ensures ParseInt(text) == Some(n) <==> n <= MAX64
  {
    VersionTextReads(n);
  }

  /** The version, as a number, is exactly the count plus 1 until the count leaves 64 bits. */
  lemma VersionsCountPlainly(st: State, calls: seq<Call>, key: string)
    requires Blank(st) && After(st, calls).Some? && InRoot(key) && key in After(st, calls).value.db
    ensures ParseInt(TextAt(After(st, calls).value.db, key)) == Some(1 + Bumps(st, calls, key)) <==>
            Bumps(st, calls, key) < MAX64
  {
    VersionsCount(st, calls, key);
    VersionReads(TextAt(After(st, calls).value.db, key), 1 + Bumps(st, calls, key));
  }

  // ----- Replaying the watch log -----

  function FieldsId(f: Fields): Id {
    Id(Overwrite(f.namespace, ""), Overwrite(f.name, ""))
  }

  function ReplayOne(seen: map<Id, Report>, event: Event): map<Id, Report> {
    match event
    case Added(r) => seen[IdOf(r) := Norm(r)]
    case Deleted(r) => seen - {IdOf(r)}
    case DeletedObject(f) => seen - {FieldsId(f)}
  }

  /** What a client knows that has watched from the start. */
  function Replay(log: seq<Event>): map<Id, Report> {
    if |log| == 0 then map[] else ReplayOne(Replay(log[..|log| - 1]), log[|log| - 1])
  }

  lemma ReplaySnoc(log: seq<Event>, event: Event)
    ensures Replay(log + [event]) == ReplayOne(Replay(log), event)
  {
    assert (log + [event])[..|log|] == log;
  }

  lemma ReplayDeletion(log: seq<Event>, r: Report, twice: bool)
    ensures Replay(log + DeletionEvents([r], twice)) == Replay(log) - {IdOf(r)}
  {
    var once := log + [Deleted(r)];
    ReplaySnoc(log, Deleted(r));
    ReplaySnoc(once, DeletedObject(Marshal(r)));
    assert FieldsId(Marshal(r)) == IdOf(r);
    if twice {
      assert log + DeletionEvents([r], twice) == once + [DeletedObject(Marshal(r))];
    } else {
      assert log + DeletionEvents([r], twice) == once;
    }
  }

  lemma {:induction false} ReplayDeletions(log: seq<Event>, rs: seq<Report>, twice: bool)
    ensures Replay(log + DeletionEvents(rs, twice)) == Replay(log) - IdsOf(rs)
    decreases |rs|
  {
    if |rs| == 0 {
      assert log + DeletionEvents(rs, twice) == log;
    } else {
      var log' := log + DeletionEvents([rs[0]], twice);
      assert log + DeletionEvents(rs, twice) == log' + DeletionEvents(rs[1..], twice) by {
        DeletionEventsSplit(rs, twice);
      }
      ReplayDeletion(log, rs[0], twice);
      ReplayDeletions(log', rs[1..], twice);
      assert rs == [rs[0]] + rs[1..];
      assert IdsOf(rs) == {IdOf(rs[0])} + IdsOf(rs[1..]);
    }
  }

  lemma DeletionEventsSplit(rs: seq<Report>, twice: bool)
    requires |rs| > 0
    ensures DeletionEvents(rs, twice) == DeletionEvents([rs[0]], twice) + DeletionEvents(rs[1..], twice)
  {
    assert [rs[0]][1..] == [];
  }

  ghost function PhantomsAfter(phantoms: set<Id>, e: Effect): set<Id> {
    match e
    case Phantom(r) => phantoms + {IdOf(r)}
    case Wrote(_, r, _) => phantoms - {IdOf(r)}
    case _ => phantoms
  }

  /** Identities that were announced by a forced update of an absent report and not created since. */
  ghost function Phantoms(st: State, calls: seq<Call>): set<Id>
    requires After(st, calls).Some?
  {
    var n := |calls| - 1;
    if n < 0 then {}
    else PhantomsAfter(Phantoms(st, calls[..n]), EffectOf(After(st, calls[..n]).value, calls[n]))
  }

  /** A watcher and the store agree on everything but `phantoms`, which only the watcher has. */
  ghost predicate InStep(st: State, phantoms: set<Id>)
    requires AllSound(st.db)
  {
    Matches(Replay(st.log), Abs(st.db), phantoms)
  }

  ghost predicate Matches(seen: map<Id, Report>, stored: map<Id, Report>, phantoms: set<Id>) {
    && seen.Keys == stored.Keys + phantoms
    && stored.Keys !! phantoms
    && forall id :: id in stored ==> seen[id] == stored[id]
  }

  lemma MatchesPut(seen: map<Id, Report>, stored: map<Id, Report>, phantoms: set<Id>, id: Id, r: Report)
    requires Matches(seen, stored, phantoms)
    ensures Matches(seen[id := r], stored[id := r], phantoms - {id})
    ensures id !in stored ==> Matches(seen[id := r], stored, phantoms + {id})
  {
  }

  lemma DroppedAreStored(db: Db, rs: seq<Report>)
    requires AllSound(db) && Segmented(db) && Honest(db, Dropped(rs, true))
    ensures IdsOf(rs) <= Abs(db).Keys
  {
    forall r | r in rs
      ensures IdOf(r) in Abs(db)
    {
      KeysAreInRoot(r);
      AbsAt(db, IdOf(r));
    }
  }

  lemma WriteKeepsStep(st: State, phantoms: set<Id>, e: Effect)
    requires AllSound(st.db) && Segmented(st.db) && Honest(st.db, e) && InStep(st, phantoms)
    requires e.Wrote? && SlashFree(e.report.namespace) && AllSound(Apply(st, e).db)
    ensures InStep(Apply(st, e), PhantomsAfter(phantoms, e))
  {
    AbsApply(st, e);
    ReplaySnoc(st.log, Added(e.report));
    MatchesPut(Replay(st.log), Abs(st.db), phantoms, IdOf(e.report), Norm(e.report));
  }

  lemma PhantomKeepsStep(st: State, phantoms: set<Id>, e: Effect)
    requires AllSound(st.db) && Segmented(st.db) && Honest(st.db, e) && InStep(st, phantoms)
    requires e.Phantom? && SlashFree(e.report.namespace)
    ensures InStep(Apply(st, e), PhantomsAfter(phantoms, e))
  {
    ReplaySnoc(st.log, Added(e.report));
    AbsAt(st.db, IdOf(e.report));
    MatchesPut(Replay(st.log), Abs(st.db), phantoms, IdOf(e.report), Norm(e.report));
  }

  lemma DropKeepsStep(st: State, phantoms: set<Id>, e: Effect)
    requires AllSound(st.db) && Segmented(st.db) && Honest(st.db, e) && InStep(st, phantoms)
    requires e.Dropped? && AllSound(Apply(st, e).db)
    ensures InStep(Apply(st, e), PhantomsAfter(phantoms, e))
  {
    AbsApply(st, e);
    ReplayDeletions(st.log, e.reports, e.twice);
    DroppedAreStored(st.db, e.reports);
  }

  lemma StepKeepsStep(st: State, phantoms: set<Id>, e: Effect)
    requires AllSound(st.db) && Segmented(st.db) && Honest(st.db, e) && InStep(st, phantoms)
    requires e.Wrote? || e.Phantom? ==> SlashFree(e.report.namespace)
    ensures AllSound(Apply(st, e).db) && Segmented(Apply(st, e).db)
    ensures InStep(Apply(st, e), PhantomsAfter(phantoms, e))
  {
    AbsApply(st, e);
    match e
    case Nothing =>
    case Wrote(_, _, _) => WriteKeepsStep(st, phantoms, e);
    case Phantom(_) => PhantomKeepsStep(st, phantoms, e);
    case Dropped(_, _) => DropKeepsStep(st, phantoms, e);
  }

  /** In every run, folding the log gives the store and the phantoms. */
  lemma {:induction false} ReplayIsStorePlusPhantoms(st: State, calls: seq<Call>)
    requires Blank(st) && LegalCalls(calls) && After(st, calls).Some?
    ensures var st' := After(st, calls).value;
            AllSound(st'.db) && Segmented(st'.db) && InStep(st', Phantoms(st, calls))
  {
    var n := |calls| - 1;
    if n < 0 {
      assert Abs(st.db) == map[];
    } else {
      ReplayIsStorePlusPhantoms(st, calls[..n]);
      var before, c := After(st, calls[..n]).value, calls[n];
      NextIsSound(before, c);
      match c
      case Own(q, order) =>
        LegalEffects(before.db, q, order);
        StepKeepsStep(before, Phantoms(st, calls[..n]), EffectOf(before, c));
      case Foreign(db) =>
        AbsAgree(before.db, db);
    }
  }

  /** A watcher knows exactly what is stored if and only if no phantom is left. */
  lemma ReplayIsStore(st: State, calls: seq<Call>)
    requires Blank(st) && LegalCalls(calls) && After(st, calls).Some?
    ensures var st' := After(st, calls).value;
            AllSound(st'.db) && (Replay(st'.log) == Abs(st'.db) <==> Phantoms(st, calls) == {})
  {
    ReplayIsStorePlusPhantoms(st, calls);
    var st' := After(st, calls).value;
    if Phantoms(st, calls) == {} {
      SameMap(Replay(st'.log), Abs(st'.db));
    }
  }

  /** The request is a forced update, and the report that it makes is not stored. */
  predicate ForcesAbsent(db: Db, q: Request) {
    && q.Update? && q.force
    && var plan := PlanForced(q.transform, GetReport(db, q.name, q.namespace));
       plan.Proceed? && KeyOf(plan.report) !in db
  }

  lemma PhantomsAreForced(db: Db, q: Request, order: seq<string>)
    requires Lists(q) ==> forall k :: k in order ==> k in db
    ensures Handle(db, q, order).effect.Phantom? <==> ForcesAbsent(db, q)
  {
  }

  lemma RunSnoc(st: State, calls: seq<Call>, c: Call)
    requires After(st, calls).Some? && Possible(After(st, calls).value, c)
    ensures var now := After(st, calls).value;
            && After(st, calls + [c]) == Some(Next(now, c))
            && Phantoms(st, calls + [c]) == PhantomsAfter(Phantoms(st, calls), EffectOf(now, c))
  {
    assert (calls + [c])[..|calls|] == calls;
  }

  /** The next request breaks the agreement exactly when it is a forced update of an absent report. */
  lemma AgreementBreaksExactly(st: State, calls: seq<Call>, q: Request, order: seq<string>)
    requires Blank(st) && LegalCalls(calls) && After(st, calls).Some? && Phantoms(st, calls) == {}
    requires Legal(q) && Walk(After(st, calls).value.db, q, order)
    ensures var now := After(st, calls).value;
            var after := Next(now, Own(q, order));
            AllSound(after.db) && (Replay(after.log) != Abs(after.db) <==> ForcesAbsent(now.db, q))
  {
    RunSnoc(st, calls, Own(q, order));
    PhantomsAreForced(After(st, calls).value.db, q, order);
    ReplayIsStore(st, calls + [Own(q, order)]);
  }

  /** Such a request for a store that has served nothing, and the disagreement that it leaves. */
  lemma ForcingBreaksAgreement(st: State, r: Report) returns (q: Request)
    requires Blank(st) && SlashFree(r.namespace)
    ensures Legal(q) && ForcesAbsent(st.db, q)
    ensures var after := Next(st, Own(q, []));
            AllSound(after.db) && Replay(after.log) != Abs(after.db)
  {
    q := Update(r.name, r.namespace, (_: Option<Report>) => Some(ReportObject(r)), (_: Object, _: Report) => true,
                true, "Strict", [], 0);
    KeysAreInRoot(r);
    AgreementBreaksExactly(st, [], q, []);
  }

  /** What Get answers is what the log last said of that report, phantoms apart. */
  lemma GetAnswersTheLog(st: State, calls: seq<Call>, name: string, namespace: string)
    requires Blank(st) && LegalCalls(calls) && After(st, calls).Some? && SlashFree(namespace)
    ensures var st' := After(st, calls).value;
            var id := Id(namespace, name);
            HandleGet(st'.db, Get(name, namespace)).response ==
            if id in Replay(st'.log) && id !in Phantoms(st, calls) then Accepted(Replay(st'.log)[id])
            else Failed(NotFound)
  {
    ReplayIsStorePlusPhantoms(st, calls);
    FetchAt(After(st, calls).value.db, name, namespace);
  }

  // ----- Dry runs -----

  /** A request that dry-run applies to; a forced update ignores it. */
  predicate IsDry(c: Call) {
    && c.Own?
    && match c.q
       case Get(_, _) => false
       case List(_, _) => false
       case Create(_, _, _, _, dryRun, _, _, _) => IsDryRun(dryRun)
       case Update(_, _, _, _, force, _, dryRun, _) => !force && IsDryRun(dryRun)
       case Delete(_, _, _, dryRun) => IsDryRun(dryRun)
       case DeleteCollection(_, _, dryRun, _) => IsDryRun(dryRun)
  }

  function Erase(calls: seq<Call>): seq<Call> {
    if |calls| == 0 then []
    else
      var c := calls[|calls| - 1];
      Erase(calls[..|calls| - 1]) + if IsDry(c) then [] else [c]
  }

  /** The responses to the requests that are not dry runs. */
  ghost function Answers(st: State, calls: seq<Call>): seq<Response>
    requires After(st, calls).Some?
  {
    var n := |calls| - 1;
    if n < 0 then []
    else
      Answers(st, calls[..n]) +
      match calls[n]
      case Foreign(_) => []
      case Own(q, order) =>
        if IsDry(calls[n]) then [] else [Handle(After(st, calls[..n]).value.db, q, order).response]
  }

  lemma DryRunsAreInert(st: State, c: Call)
    requires Possible(st, c) && IsDry(c)
    ensures Next(st, c) == st
  {
  }

  /** Leaving the dry runs out of a run changes no state, no event and no other response. */
  lemma {:induction false} DryRunsErase(st: State, calls: seq<Call>)
    requires After(st, calls).Some?
    ensures After(st, Erase(calls)) == After(st, calls)
    ensures Answers(st, Erase(calls)) == Answers(st, calls)
  {
    var n := |calls| - 1;
    if n >= 0 {
      DryRunsErase(st, calls[..n]);
      if IsDry(calls[n]) {
        DryRunsAreInert(After(st, calls[..n]).value, calls[n]);
        assert Erase(calls) == Erase(calls[..n]);
      } else {
        assert Erase(calls)[..|Erase(calls)| - 1] == Erase(calls[..n]);
      }
    }
  }
}

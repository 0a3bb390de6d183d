/**
  What interleaving costs, and exactly when: an update writes the version after
  the one it read, whatever it finds, so versions count if and only if every
  update finds what it read.  Schedules on which a version goes back and on which
  the log ends behind the store.
 */
module Races {
  import opened Wrappers
  import opened Keys
  import opened Decimal
  import opened Codec
  import opened InMemory
  import opened Handlers
  import opened Abstraction
  import opened Machine
  import opened Accounting
  import opened Watching
  import Runs

  lemma Extend(s0: Sys, actions: seq<Action>, a: Action)
    requires Reachable(s0, actions) && Enabled(Reached(s0, actions), a)
    ensures Reachable(s0, actions + [a]) && Reached(s0, actions + [a]) == Perform(Reached(s0, actions), a)
  {
    assert (actions + [a])[..|actions|] == actions;
  }

  function StoredVersion(s: Sys, key: string): int
    requires key in s.shared.db
  {
    VersionOf(ReportAt(s.shared.db[key]))
  }

  // ----- One update, between its read and its write -----

  /** No action in `rest` is a step of request `i`. */
  ghost predicate Spares(rest: seq<Action>, i: nat) {
    forall a :: a in rest && a.Move? ==> a.i != i
  }

  lemma SparesJoin(a: seq<Action>, b: seq<Action>, i: nat)
    requires Spares(a, i) && Spares(b, i)
    ensures Spares(a + b, i)
  {
  }

  lemma {:induction false} OthersLeaveAlone(s0: Sys, actions: seq<Action>, rest: seq<Action>, i: nat)
    requires Reachable(s0, actions) && i < |Reached(s0, actions).procs|
    requires Reachable(s0, actions + rest) && Spares(rest, i)
    ensures i < |Reached(s0, actions + rest).procs|
    ensures Reached(s0, actions + rest).procs[i] == Reached(s0, actions).procs[i]
    decreases |rest|
  {
    if |rest| == 0 {
      assert actions + rest == actions;
    } else {
      var prior := rest[..|rest| - 1];
      assert (actions + rest)[..|actions + rest| - 1] == actions + prior;
      LastAction(s0, actions + rest);
      OthersLeaveAlone(s0, actions, prior, i);
    }
  }

  lemma SuccessorIsInjective(a: int, b: int)
    requires InRange(a) && InRange(b)
    ensures Successor(a) == Successor(b) <==> a == b
    ensures Successor(a) == if a < MAX64 then a + 1 else MIN64
  {
    WrapIs(MAX64 + 1, 1);
  }

  lemma StoredVersionInRange(s0: Sys, actions: seq<Action>, key: string)
    requires Reachable(s0, actions) && InRoot(key) && key in Reached(s0, actions).shared.db
    ensures InRange(StoredVersion(Reached(s0, actions), key))
  {
    ReachableIsSound(s0, actions);
  }

  /** The read of an update: it goes on to write the version after the one it found. */
  lemma DoRead(s0: Sys, actions: seq<Action>, i: nat, key: string)
    requires Reachable(s0, actions) && i < |Reached(s0, actions).procs| && Reached(s0, actions).procs[i].ReadVersion?
    requires KeyOf(Reached(s0, actions).procs[i].report) == key && key in Reached(s0, actions).shared.db
    ensures var s, acts := Reached(s0, actions), actions + [Move(i, [])];
            && Reachable(s0, acts)
            && var s' := Reached(s0, acts);
               && s'.shared == s.shared && |s'.procs| == |s.procs|
               && s'.procs[i] == StoreUpdate(
                    s.procs[i].report.(resourceVersion := FormatInt(Successor(StoredVersion(s, key)))),
                    s.procs[i].modified)
               && s'.procs == s.procs[i := s'.procs[i]]
  {
    var s := Reached(s0, actions);
    var r := s.procs[i].report;
    ReachableIsSound(s0, actions);
    FetchIsSound(s.shared.db, r.name, r.namespace);
    KeysAreInRoot(r);
    Extend(s0, actions, Move(i, []));
  }

  lemma Written(r: Report, modified: int)
    requires ParseInt(r.resourceVersion).Some?
    ensures VersionOf(ReportAt(Stored(r, modified))) == VersionOf(r)
    ensures KeyOf(ReportAt(Stored(r, modified))) == KeyOf(r)
  {
    StoredIsSound(r, modified);
  }

  /** The write of an update: it replaces what is there by what it holds, and is refused if nothing is there. */
  lemma DoWrite(s0: Sys, actions: seq<Action>, i: nat, key: string)
    requires Reachable(s0, actions) && i < |Reached(s0, actions).procs| && Reached(s0, actions).procs[i].StoreUpdate?
    requires KeyOf(Reached(s0, actions).procs[i].report) == key
    requires ParseInt(Reached(s0, actions).procs[i].report.resourceVersion).Some?
    ensures var s, acts := Reached(s0, actions), actions + [Move(i, [])];
            && Reachable(s0, acts)
            && var s' := Reached(s0, acts);
               if key in s.shared.db then
                 && key in s'.shared.db && StoredVersion(s', key) == VersionOf(s.procs[i].report)
                 && s'.shared.log == s.shared.log
                 && s'.procs == s.procs[i := AnnounceAdded(s.procs[i].report)]
               else s' == s.(procs := s.procs[i := Done(Failed(BadRequest(Refused)))])
  {
    Extend(s0, actions, Move(i, []));
    Written(Reached(s0, actions).procs[i].report, Reached(s0, actions).procs[i].modified);
  }

  /**
    An update reads a version, others do what they like, and it writes: always the
    version after the one it read.  That is the version after the one it finds if
    and only if it finds what it read, and it puts the version back if and only if
    it finds more than one version above what it read.  If the report is gone by
    then, it is refused and changes nothing.
   */
  lemma UpdateIsNextExactly(s0: Sys, actions: seq<Action>, i: nat, rest: seq<Action>, key: string)
    requires Reachable(s0, actions) && i < |Reached(s0, actions).procs| && Reached(s0, actions).procs[i].ReadVersion?
    requires KeyOf(Reached(s0, actions).procs[i].report) == key && key in Reached(s0, actions).shared.db
    requires Spares(rest, i) && Reachable(s0, actions + [Move(i, [])] + rest)
    ensures var before := actions + [Move(i, [])] + rest;
            var after := before + [Move(i, [])];
            && Reachable(s0, after)
            && var s, s' := Reached(s0, before), Reached(s0, after);
               if key in s.shared.db then
                 && key in s'.shared.db
                 && var read, found, wrote :=
                      StoredVersion(Reached(s0, actions), key), StoredVersion(s, key), StoredVersion(s', key);
                    && wrote == Successor(read)
                    && (wrote == Successor(found) <==> found == read)
                    && (read < MAX64 ==> (wrote < found <==> read + 1 < found))
               else s' == s.(procs := s.procs[i := Done(Failed(BadRequest(Refused)))])
  {
    var before := actions + [Move(i, [])] + rest;
    var read := StoredVersion(Reached(s0, actions), key);
    KeysAreInRoot(Reached(s0, actions).procs[i].report);
    StoredVersionInRange(s0, actions, key);
    DoRead(s0, actions, i, key);
    OthersLeaveAlone(s0, actions + [Move(i, [])], rest, i);
    ParseFormatInt(Successor(read));
    DoWrite(s0, before, i, key);
    if key in Reached(s0, before).shared.db {
      StoredVersionInRange(s0, before, key);
      SuccessorIsInjective(read, StoredVersion(Reached(s0, before), key));
    }
  }

  // ----- One delete, between its read and its removal -----

  /** The request, before its read, would delete `r`: its validator accepts it. */
  predicate Accepts(pc: Pc, r: Report) {
    match pc
    case Start(q) => q.Delete? && !IsDryRun(q.dryRun) && q.validDelete(r)
    case NextItem(l) => l.validDelete(r)
    case _ => false
  }

  lemma DeleteReads(s: Shared, pc: Pc, order: seq<string>)
    requires AllSound(s.db) && StepWalk(s.db, pc, order) && !pc.StoreDelete? && Advance(s, pc, order).1.StoreDelete?
    ensures var (s', pc') := Advance(s, pc, order);
            && s' == s && KeyOf(pc'.report) in s.db && pc'.report == ReportAt(s.db[KeyOf(pc'.report)])
            && Accepts(pc, pc'.report)
  {
    match pc
    case Start(q) => FetchIsSound(s.db, q.name, q.namespace);
    case NextItem(l) => FetchIsSound(s.db, l.items[l.next].name, l.namespace);
  }

  lemma DeleteRemoves(s0: Sys, actions: seq<Action>, i: nat)
    requires Reachable(s0, actions) && i < |Reached(s0, actions).procs| && Reached(s0, actions).procs[i].StoreDelete?
    ensures var s, acts := Reached(s0, actions), actions + [Move(i, [])];
            && Reachable(s0, acts)
            && var r, loop, s' := s.procs[i].report, s.procs[i].loop, Reached(s0, acts);
               if KeyOf(r) in s.shared.db then
                 && s'.shared.db == s.shared.db - {KeyOf(r)}
                 && s'.shared.history == s.shared.history + [RemovalOf(s.shared.db, r, loop)]
                 && s'.procs == s.procs[i := AnnounceDeleted(r, loop)]
               else s' == s.(procs := s.procs[i := Done(Refusal(loop))])
  {
    Extend(s0, actions, Move(i, []));
  }

  /**
    A delete reads a report and validates it, others do what they like, and it
    removes: always the entry that is there then, while the report that it goes on
    to announce is the one that it read and validated.  The two are the same report
    if and only if it finds the report that it read.  If nothing is there by then,
    it fails and changes nothing.
   */
  lemma DeleteIsOfWhatItReadExactly(s0: Sys, actions: seq<Action>, i: nat, order: seq<string>, rest: seq<Action>)
    requires Reachable(s0, actions) && Enabled(Reached(s0, actions), Move(i, order))
    requires !Reached(s0, actions).procs[i].StoreDelete?
    requires Reachable(s0, actions + [Move(i, order)])
    requires Reached(s0, actions + [Move(i, order)]).procs[i].StoreDelete?
    requires Spares(rest, i) && Reachable(s0, actions + [Move(i, order)] + rest)
    ensures Reachable(s0, actions + [Move(i, order)] + rest + [Move(i, [])])
    ensures var reading := Reached(s0, actions);
            var pc := Reached(s0, actions + [Move(i, order)]).procs[i];
            var before := actions + [Move(i, order)] + rest;
            var s, s', key := Reached(s0, before), Reached(s0, before + [Move(i, [])]), KeyOf(pc.report);
            && key in reading.shared.db && Accepts(reading.procs[i], pc.report)
            && if key in s.shared.db then
                 && s'.shared.db == s.shared.db - {key}
                 && s'.shared.history ==
                    s.shared.history + [Removal(key, Marshal(pc.report), pc.loop.Some?, s.shared.db[key])]
                 && s'.procs == s.procs[i := AnnounceDeleted(pc.report, pc.loop)]
                 && (ReportAt(s.shared.db[key]) == pc.report <==>
                     ReportAt(s.shared.db[key]) == ReportAt(reading.shared.db[key]))
               else s' == s.(procs := s.procs[i := Done(Refusal(pc.loop))])
  {
    var reading := Reached(s0, actions);
    ReachableIsSound(s0, actions);
    Extend(s0, actions, Move(i, order));
    DeleteReads(reading.shared, reading.procs[i], order);
    OthersLeaveAlone(s0, actions + [Move(i, order)], rest, i);
    DeleteRemoves(s0, actions + [Move(i, order)] + rest, i);
  }

  // ----- Counting versions over whole schedules -----

  /** How many updates were written to `key` since it was last created or forced. */
  function Since(history: seq<Record>, key: string): nat {
    if |history| == 0 then 0
    else
      var last, earlier := history[|history| - 1], Since(history[..|history| - 1], key);
      if last.key != key then earlier
      else
        match last
        case Created(_, _) => 0
        case Updated(_, _) => earlier + 1
        case Forced(_, _, applied) => if applied then 0 else earlier
        case Removal(_, _, _, _) => earlier
  }

  lemma SinceSnoc(history: seq<Record>, last: Record, key: string)
    ensures Since(history + [last], key) ==
            if last.key != key then Since(history, key)
            else if last.Updated? then Since(history, key) + 1
            else if last.Created? || (last.Forced? && last.applied) then 0 else Since(history, key)
  {
    assert (history + [last])[..|history|] == history;
  }

  /** The stored version is number 1 plus that count in the sequence `texts`. */
  ghost predicate Counts(s: Shared, key: string, texts: nat -> string) {
    key in s.db ==> Runs.TextAt(s.db, key) == texts(1 + Since(s.history, key))
  }

  ghost predicate CountsThroughout(s0: Sys, actions: seq<Action>, key: string, texts: nat -> string)
    requires Reachable(s0, actions)
  {
    && Counts(Reached(s0, actions).shared, key, texts)
    && (|actions| > 0 ==> CountsThroughout(s0, actions[..|actions| - 1], key, texts))
  }

  /** The step is an update's write over a version that its own does not follow. */
  predicate Overtaken(db: Db, pc: Pc, key: string) {
    pc.StoreUpdate? && KeyOf(pc.report) == key && key in db && pc.report.resourceVersion != Follow(Runs.TextAt(db, key))
  }

  /** No update writes to `key` over another version than the one it read. */
  ghost predicate NeverOvertaken(s0: Sys, actions: seq<Action>, key: string)
    requires Reachable(s0, actions)
  {
    |actions| == 0 ||
    var prior, a := actions[..|actions| - 1], actions[|actions| - 1];
    var s := Reached(s0, prior);
    NeverOvertaken(s0, prior, key) && !(a.Move? && Overtaken(s.shared.db, s.procs[a.i], key))
  }

  /** Creates and forced updates write version 1. */
  predicate StartsAtOne(pc: Pc) {
    match pc
    case StoreCreate(r, _) => r.resourceVersion == "1"
    case StoreForced(r, _) => r.resourceVersion == "1"
    case _ => true
  }

  lemma {:induction false} AllStartAtOne(s0: Sys, actions: seq<Action>)
    requires Reachable(s0, actions)
    ensures forall i :: 0 <= i < |Reached(s0, actions).procs| ==> StartsAtOne(Reached(s0, actions).procs[i])
  {
    FirstVersion();
    if |actions| > 0 {
      LastAction(s0, actions);
      AllStartAtOne(s0, actions[..|actions| - 1]);
    }
  }

  /** The version text that a record leaves for the count to go on. */
  predicate GoesOn(db: Db, record: Record, key: string) {
    match record
    case Created(_, v) => ReportAt(v).resourceVersion == "1"
    case Updated(_, v) => key in db ==> ReportAt(v).resourceVersion == Follow(Runs.TextAt(db, key))
    case Forced(_, v, applied) => applied ==> ReportAt(v).resourceVersion == "1"
    case Removal(_, _, _, _) => true
  }

  lemma RecordCounts(s: Shared, record: Record, key: string, texts: nat -> string)
    requires Counts(s, key, texts) && Runs.Succeed(texts) && (record.Updated? ==> record.key in s.db)
    ensures Counts(s.(db := Replayed(s.db, record), history := s.history + [record]), key, texts) <==>
            (record.key == key ==> GoesOn(s.db, record, key))
  {
    SinceSnoc(s.history, record, key);
    assert Follow(texts(1 + Since(s.history, key))) == texts(1 + Since(s.history, key) + 1);
  }

  lemma StoredText(r: Report, modified: int)
    ensures ReportAt(Stored(r, modified)).resourceVersion == r.resourceVersion
  {
    StoredIsSound(r, modified);
  }

  lemma AchievementGoesOn(db: Db, pc: Pc, key: string)
    requires Achieves(db, pc) != [] && StartsAtOne(pc)
    ensures (Achieves(db, pc)[0].key == key ==> GoesOn(db, Achieves(db, pc)[0], key)) <==> !Overtaken(db, pc, key)
    ensures Achieves(db, pc)[0].Updated? ==> Achieves(db, pc)[0].key in db
  {
    if !pc.StoreDelete? {
      StoredText(pc.report, pc.modified);
    }
  }

  /** A step keeps the count exactly when it is not an overtaken write. */
  lemma StepCounts(s: Shared, pc: Pc, order: seq<string>, key: string, texts: nat -> string)
    requires StepWalk(s.db, pc, order) && StartsAtOne(pc) && Counts(s, key, texts) && Runs.Succeed(texts)
    ensures Counts(Advance(s, pc, order).0, key, texts) <==> !Overtaken(s.db, pc, key)
  {
    if Achieves(s.db, pc) == [] {
      StepAdds(s, pc, order);
      assert s.history + [] == s.history;
    } else {
      AfterAchieving(s, pc, order);
      AchievementGoesOn(s.db, pc, key);
      RecordCounts(s, Achieves(s.db, pc)[0], key, texts);
    }
  }

  lemma PerformCounts(s: Sys, a: Action, key: string, texts: nat -> string)
    requires Enabled(s, a) && InRoot(key) && Counts(s.shared, key, texts) && Runs.Succeed(texts)
    requires forall i :: 0 <= i < |s.procs| ==> StartsAtOne(s.procs[i])
    ensures Counts(Perform(s, a).shared, key, texts) <==> !(a.Move? && Overtaken(s.shared.db, s.procs[a.i], key))
  {
    if a.Move? {
      StepCounts(s.shared, s.procs[a.i], a.order, key, texts);
    }
  }

  lemma {:induction false} CountsExactly(s0: Sys, actions: seq<Action>, key: string, texts: nat -> string)
    requires Reachable(s0, actions) && InRoot(key) && Runs.Succeed(texts)
    ensures CountsThroughout(s0, actions, key, texts) <==> NeverOvertaken(s0, actions, key)
  {
    if |actions| > 0 {
      LastAction(s0, actions);
      var prior := actions[..|actions| - 1];
      CountsExactly(s0, prior, key, texts);
      AllStartAtOne(s0, prior);
      if CountsThroughout(s0, prior, key, texts) {
        PerformCounts(Reached(s0, prior), actions[|actions| - 1], key, texts);
      }
    }
  }

  /**
    Along a schedule every stored version is 1 plus the updates written since the
    last create or forced update, in 64-bit arithmetic, if and only if on it no
    update writes over another version than the one it read.
   */
  lemma VersionsCountExactly(s0: Sys, actions: seq<Action>, key: string)
    requires Reachable(s0, actions) && InRoot(key)
    ensures CountsThroughout(s0, actions, key, VersionText) <==> NeverOvertaken(s0, actions, key)
  {
    Runs.VersionTextsSucceed();
    CountsExactly(s0, actions, key, VersionText);
  }

  // ----- Schedules that go wrong -----

  /** An update that changes nothing but the version. */
  function Touch(r: Report): Request {
    Update(r.name, r.namespace, (_: Option<Report>) => Some(ReportObject(r)), (_: Object, _: Report) => true,
           false, "Strict", [], 0)
  }

  /** The stored report with the version that an update would write now. */
  function Bumped(v: Value): Report {
    ReportAt(v).(resourceVersion := FormatInt(Successor(VersionOf(ReportAt(v)))))
  }

  lemma BumpedIsNext(v: Value, key: string)
    requires Sound(key, v) && VersionOf(ReportAt(v)) < MAX64
    ensures KeyOf(Bumped(v)) == key && VersionOf(Bumped(v)) == VersionOf(ReportAt(v)) + 1
    ensures ParseInt(Bumped(v).resourceVersion).Some?
  {
    ParseFormatInt(Successor(VersionOf(ReportAt(v))));
    assert InRange(VersionOf(ReportAt(v)));
  }

  /** A touching request arrives, and stops just before it reads the version. */
  lemma TouchUpToRead(s0: Sys, actions: seq<Action>, key: string) returns (more: seq<Action>)
    requires Reachable(s0, actions) && InRoot(key) && key in Reached(s0, actions).shared.db
    ensures Reachable(s0, actions + more)
    ensures forall i: nat :: i < |Reached(s0, actions).procs| ==> Spares(more, i)
    ensures var s := Reached(s0, actions);
            Reached(s0, actions + more) == s.(procs := s.procs + [ReadVersion(ReportAt(s.shared.db[key]), 0)])
  {
    ReachableIsSound(s0, actions);
    var s := Reached(s0, actions);
    var r, i := ReportAt(s.shared.db[key]), |s.procs|;
    var arrived := actions + [Arrive(Touch(r))];
    more := [Arrive(Touch(r)), Move(i, [])];
    Extend(s0, actions, Arrive(Touch(r)));
    FetchIsSound(s.shared.db, r.name, r.namespace);
    assert Begin(s.shared, Touch(r), []) == ReadVersion(r, 0);
    Extend(s0, arrived, Move(i, []));
    assert actions + more == arrived + [Move(i, [])];
    assert Reached(s0, actions + more).procs == s.procs + [ReadVersion(r, 0)];
  }

  /** The request that has just read writes next. */
  lemma ReadAndWrite(s0: Sys, actions: seq<Action>, i: nat, key: string)
    requires Reachable(s0, actions) && i < |Reached(s0, actions).procs| && InRoot(key)
    requires key in Reached(s0, actions).shared.db && StoredVersion(Reached(s0, actions), key) < MAX64
    requires Reached(s0, actions).procs[i] == ReadVersion(ReportAt(Reached(s0, actions).shared.db[key]), 0)
    ensures var s, acts := Reached(s0, actions), actions + [Move(i, []), Move(i, [])];
            && Reachable(s0, acts)
            && var s' := Reached(s0, acts);
               && key in s'.shared.db && StoredVersion(s', key) == StoredVersion(s, key) + 1
               && s'.shared.log == s.shared.log
               && s'.procs == s.procs[i := AnnounceAdded(Bumped(s.shared.db[key]))]
  {
    ReachableIsSound(s0, actions);
    BumpedIsNext(Reached(s0, actions).shared.db[key], key);
    DoRead(s0, actions, i, key);
    DoWrite(s0, actions + [Move(i, [])], i, key);
    assert actions + [Move(i, []), Move(i, [])] == actions + [Move(i, [])] + [Move(i, [])];
  }

  /** A touching request arrives, reads and writes, without announcing it yet. */
  lemma TouchAndWrite(s0: Sys, actions: seq<Action>, key: string) returns (more: seq<Action>)
    requires Reachable(s0, actions) && InRoot(key) && key in Reached(s0, actions).shared.db
    requires StoredVersion(Reached(s0, actions), key) < MAX64
    ensures Reachable(s0, actions + more)
    ensures forall i: nat :: i < |Reached(s0, actions).procs| ==> Spares(more, i)
    ensures var s, s' := Reached(s0, actions), Reached(s0, actions + more);
            && key in s'.shared.db && StoredVersion(s', key) == StoredVersion(s, key) + 1
            && s'.shared.log == s.shared.log
            && s'.procs == s.procs + [AnnounceAdded(Bumped(s.shared.db[key]))]
  {
    var n := |Reached(s0, actions).procs|;
    var second := [Move(n, []), Move(n, [])];
    var first := TouchUpToRead(s0, actions, key);
    ReadAndWrite(s0, actions + first, n, key);
    more := first + second;
    assert actions + more == actions + first + second;
    forall i: nat | i < n
      ensures Spares(more, i)
    {
      SparesJoin(first, second, i);
    }
  }

  lemma TouchTwice(s0: Sys, actions: seq<Action>, key: string) returns (more: seq<Action>)
    requires Reachable(s0, actions) && InRoot(key) && key in Reached(s0, actions).shared.db
    requires StoredVersion(Reached(s0, actions), key) + 2 <= MAX64
    ensures Reachable(s0, actions + more)
    ensures forall i: nat :: i < |Reached(s0, actions).procs| ==> Spares(more, i)
    ensures var s, s' := Reached(s0, actions), Reached(s0, actions + more);
            key in s'.shared.db && StoredVersion(s', key) == StoredVersion(s, key) + 2
  {
    var one := TouchAndWrite(s0, actions, key);
    var two := TouchAndWrite(s0, actions + one, key);
    more := one + two;
    assert actions + more == actions + one + two;
    forall i: nat | i < |Reached(s0, actions).procs|
      ensures Spares(more, i)
    {
      SparesJoin(one, two, i);
    }
  }

  /** A touching request has arrived, and then reads. */
  lemma TouchReads(s0: Sys, actions: seq<Action>, key: string) returns (reading: seq<Action>)
    requires Reachable(s0, actions) && InRoot(key) && key in Reached(s0, actions).shared.db
    ensures var i, s := |Reached(s0, actions).procs|, Reached(s0, actions);
            && Reachable(s0, reading) && Reachable(s0, reading + [Move(i, [])])
            && Reached(s0, reading) == s.(procs := s.procs + [ReadVersion(ReportAt(s.shared.db[key]), 0)])
            && Reached(s0, reading + [Move(i, [])]).shared == s.shared
            && |Reached(s0, reading + [Move(i, [])]).procs| == i + 1
  {
    var more := TouchUpToRead(s0, actions, key);
    reading := actions + more;
    ReachableIsSound(s0, actions);
    DoRead(s0, reading, |Reached(s0, actions).procs|, key);
  }

  /** From any reachable state, three updates of one report can make its version go back by one at the last write. */
  lemma VersionsCanGoBack(s0: Sys, actions: seq<Action>, key: string) returns (acts: seq<Action>, last: Action)
    requires Reachable(s0, actions) && InRoot(key) && key in Reached(s0, actions).shared.db
    requires StoredVersion(Reached(s0, actions), key) + 2 <= MAX64
    ensures Reachable(s0, acts) && Reachable(s0, acts + [last])
    ensures var s, s' := Reached(s0, acts), Reached(s0, acts + [last]);
            key in s.shared.db && key in s'.shared.db && StoredVersion(s', key) + 1 == StoredVersion(s, key)
  {
    var i := |Reached(s0, actions).procs|;
    var reading := TouchReads(s0, actions, key);
    var rest := TouchTwice(s0, reading + [Move(i, [])], key);
    acts, last := reading + [Move(i, [])] + rest, Move(i, []);
    ReachableIsSound(s0, actions);
    UpdateIsNextExactly(s0, reading, i, rest, key);
    StoredVersionInRange(s0, actions, key);
    SuccessorIsInjective(StoredVersion(Reached(s0, actions), key), 0);
  }

  /** A delete that its validator allows for one report only. */
  function DeleteOnly(r: Report): Request {
    Delete(r.name, r.namespace, (x: Report) => x == r, [])
  }

  /** Such a request arrives and reads. */
  lemma DeleteUpToRemoval(s0: Sys, actions: seq<Action>, key: string) returns (arrived: seq<Action>)
    requires Reachable(s0, actions) && InRoot(key) && key in Reached(s0, actions).shared.db
    ensures Reachable(s0, arrived) && Reachable(s0, arrived + [Move(|Reached(s0, actions).procs|, [])])
    ensures Arrive(DeleteOnly(ReportAt(Reached(s0, actions).shared.db[key]))) in arrived
    ensures var s, r := Reached(s0, actions), ReportAt(Reached(s0, actions).shared.db[key]);
            && KeyOf(r) == key
            && Reached(s0, arrived) == s.(procs := s.procs + [Start(DeleteOnly(r))])
            && Reached(s0, arrived + [Move(|s.procs|, [])]) == s.(procs := s.procs + [StoreDelete(r, Option.None)])
  {
    ReachableIsSound(s0, actions);
    var s := Reached(s0, actions);
    var r, i := ReportAt(s.shared.db[key]), |s.procs|;
    Extend(s0, actions, Arrive(DeleteOnly(r)));
    arrived := actions + [Arrive(DeleteOnly(r))];
    FetchIsSound(s.shared.db, r.name, r.namespace);
    assert Begin(s.shared, DeleteOnly(r), []) == StoreDelete(r, Option.None);
    Extend(s0, arrived, Move(i, []));
    assert Reached(s0, arrived + [Move(i, [])]).procs == s.procs + [StoreDelete(r, Option.None)];
  }

  /**
    From any reachable state that stores a report whose version is not yet the
    largest, a delete can remove a report that its validator refuses, and announce
    another.
   */
  lemma DeleteCanTakeAnother(s0: Sys, actions: seq<Action>, key: string) returns (acts: seq<Action>, last: Action)
    requires Reachable(s0, actions) && InRoot(key) && key in Reached(s0, actions).shared.db
    requires StoredVersion(Reached(s0, actions), key) < MAX64
    ensures Reachable(s0, acts) && Reachable(s0, acts + [last])
    ensures var r := ReportAt(Reached(s0, actions).shared.db[key]);
            var s, s' := Reached(s0, acts), Reached(s0, acts + [last]);
            && Arrive(DeleteOnly(r)) in acts
            && key in s.shared.db && !DeleteOnly(r).validDelete(ReportAt(s.shared.db[key]))
            && s'.shared.db == s.shared.db - {key}
            && last.Move? && s'.procs[last.i] == AnnounceDeleted(r, Option.None)
  {
    var i, r := |Reached(s0, actions).procs|, ReportAt(Reached(s0, actions).shared.db[key]);
    var arrived := DeleteUpToRemoval(s0, actions, key);
    last := Move(i, []);
    var more := TouchAndWrite(s0, arrived + [last], key);
    acts := arrived + [last] + more;
    DeleteIsOfWhatItReadExactly(s0, arrived, i, [], more);
  }

  lemma DoAnnounce(s0: Sys, actions: seq<Action>, i: nat)
    requires Reachable(s0, actions) && i < |Reached(s0, actions).procs| && Reached(s0, actions).procs[i].AnnounceAdded?
    ensures var s, acts := Reached(s0, actions), actions + [Move(i, [])];
            && Reachable(s0, acts)
            && var s' := Reached(s0, acts);
               && s'.shared.db == s.shared.db
               && s'.shared.log == s.shared.log + [Added(s.procs[i].report)]
               && s'.procs == s.procs[i := Done(Accepted(s.procs[i].report))]
  {
    Extend(s0, actions, Move(i, []));
  }

  /** Two requests announce in the order opposite to their numbers. */
  lemma AnnounceReversed(s0: Sys, actions: seq<Action>, i: nat)
    requires Reachable(s0, actions) && i + 1 < |Reached(s0, actions).procs|
    requires Reached(s0, actions).procs[i].AnnounceAdded? && Reached(s0, actions).procs[i + 1].AnnounceAdded?
    ensures var s, acts := Reached(s0, actions), actions + [Move(i + 1, [])] + [Move(i, [])];
            && Reachable(s0, acts)
            && var s', r, r' := Reached(s0, acts), s.procs[i].report, s.procs[i + 1].report;
               && s'.shared.db == s.shared.db
               && s'.shared.log == s.shared.log + [Added(r')] + [Added(r)]
               && s'.procs == s.procs[i + 1 := Done(Accepted(r'))][i := Done(Accepted(r))]
  {
    DoAnnounce(s0, actions, i + 1);
    DoAnnounce(s0, actions + [Move(i + 1, [])], i);
  }

  lemma ReplayEndsWith(log: seq<Event>, r: Report)
    ensures Lookup(Runs.Replay(log + [Added(r)]), IdOf(r)) == Told(log + [Added(r)], KeyOf(r)) == Some(Norm(r))
  {
    Runs.ReplaySnoc(log, Added(r));
    ToldSnoc(log, Added(r), KeyOf(r));
  }

  lemma DoneOwesNothing(procs: seq<Pc>, a: Pc, b: Pc, c: Response, d: Response, key: string)
    requires NoneOwes(procs, key)
    ensures NoneOwes((procs + [a, b])[|procs| + 1 := Done(c)][|procs| := Done(d)], key)
  {
  }

  /** Two touching requests have written, one over the other, and not announced yet. */
  lemma TwoWrites(s0: Sys, actions: seq<Action>, key: string) returns (acts: seq<Action>, r: Report, r': Report)
    requires Reachable(s0, actions) && InRoot(key) && key in Reached(s0, actions).shared.db
    requires StoredVersion(Reached(s0, actions), key) + 2 <= MAX64
    ensures Reachable(s0, acts) && KeyOf(r) == key
    ensures var s, s' := Reached(s0, actions), Reached(s0, acts);
            && key in s'.shared.db && StoredVersion(s', key) == VersionOf(r) + 1
            && s'.procs == s.procs + [AnnounceAdded(r), AnnounceAdded(r')]
  {
    ReachableIsSound(s0, actions);
    BumpedIsNext(Reached(s0, actions).shared.db[key], key);
    r := Bumped(Reached(s0, actions).shared.db[key]);
    var one := TouchAndWrite(s0, actions, key);
    var two := TouchAndWrite(s0, actions + one, key);
    r' := Bumped(Reached(s0, actions + one).shared.db[key]);
    acts := actions + one + two;
  }

  /** Two writes announced in reverse: the log ends on the first. */
  lemma ReversedIsStale(s0: Sys, actions: seq<Action>, n: nat, key: string, r: Report, r': Report)
    requires Reachable(s0, actions) && n + 1 < |Reached(s0, actions).procs| && KeyOf(r) == key
    requires Reached(s0, actions).procs[n] == AnnounceAdded(r) && Reached(s0, actions).procs[n + 1] == AnnounceAdded(r')
    ensures var acts := actions + [Move(n + 1, [])] + [Move(n, [])];
            && Reachable(s0, acts)
            && var s, s' := Reached(s0, actions), Reached(s0, acts);
               && s'.shared.db == s.shared.db
               && Lookup(Runs.Replay(s'.shared.log), IdOf(r)) == Told(s'.shared.log, key) == Some(Norm(r))
               && s'.procs == s.procs[n + 1 := Done(Accepted(r'))][n := Done(Accepted(r))]
  {
    AnnounceReversed(s0, actions, n);
    ReplayEndsWith(Reached(s0, actions).shared.log + [Added(r')], r);
  }

  /**
    From any reachable state, two updates can be announced in the other order: the
    log then ends on `r`, one version behind what `r'` has left in the store, and
    neither request has anything left to do.
   */
  lemma LogCanEndStale(s0: Sys, actions: seq<Action>, key: string) returns (acts: seq<Action>, r: Report, r': Report)
    requires Reachable(s0, actions) && InRoot(key) && key in Reached(s0, actions).shared.db
    requires StoredVersion(Reached(s0, actions), key) + 2 <= MAX64
    ensures Reachable(s0, acts) && KeyOf(r) == key
    ensures var s := Reached(s0, acts).shared;
            && key in s.db
            && Lookup(Runs.Replay(s.log), IdOf(r)) == Told(s.log, key) == Some(Norm(r))
            && VersionOf(Norm(r)) + 1 == VersionOf(ReportAt(s.db[key]))
    ensures var was := Reached(s0, actions).procs;
            Reached(s0, acts).procs == (was + [AnnounceAdded(r), AnnounceAdded(r')])
                                       [|was| + 1 := Done(Accepted(r'))][|was| := Done(Accepted(r))]
  {
    var n := |Reached(s0, actions).procs|;
    acts, r, r' := TwoWrites(s0, actions, key);
    ReversedIsStale(s0, acts, n, key, r, r');
    assert Norm(r).resourceVersion == r.resourceVersion;
    acts := acts + [Move(n + 1, [])] + [Move(n, [])];
  }

  // ----- The same from nothing -----

  /** A server that has just started. */
  const STARTED := Sys(Shared(map[], [], []), [])

  const FIRST_REPORT := Report("r", "n", "u", "1", 0, None, "")

  function CreateFirst(): Request {
    Create("n", ReportObject(FIRST_REPORT), true, "Strict", [], "u", 0, 0)
  }

  /** One create leads to a state that stores a report at version 1 and owes nothing. */
  lemma StoresFirst() returns (acts: seq<Action>)
    ensures Reachable(STARTED, acts)
    ensures var s, key := Reached(STARTED, acts), KeyOf(FIRST_REPORT);
            InRoot(key) && key in s.shared.db && StoredVersion(s, key) == 1 && NoneOwes(s.procs, key)
  {
    FirstVersion();
    ParseFormatInt(1);
    KeysAreInRoot(FIRST_REPORT);
    StoredIsSound(FIRST_REPORT, 0);
    assert Execute(STARTED, []) == Some(STARTED);
    Extend(STARTED, [], Arrive(CreateFirst()));
    acts := [] + [Arrive(CreateFirst())];
    Extend(STARTED, acts, Move(0, []));
    acts := acts + [Move(0, [])];
    assert Reached(STARTED, acts).procs == [StoreCreate(FIRST_REPORT, 0)];
    Extend(STARTED, acts, Move(0, []));
    acts := acts + [Move(0, [])];
    Extend(STARTED, acts, Move(0, []));
    acts := acts + [Move(0, [])];
  }

  /** A schedule from the start on which a version goes back. */
  lemma AVersionGoesBack() returns (acts: seq<Action>, last: Action)
    ensures Reachable(STARTED, acts) && Reachable(STARTED, acts + [last])
    ensures var s, s', key := Reached(STARTED, acts), Reached(STARTED, acts + [last]), KeyOf(FIRST_REPORT);
            key in s.shared.db && key in s'.shared.db && StoredVersion(s', key) + 1 == StoredVersion(s, key)
  {
    var stored := StoresFirst();
    acts, last := VersionsCanGoBack(STARTED, stored, KeyOf(FIRST_REPORT));
  }

  lemma StaleIsImpolite(s0: Sys, actions: seq<Action>, key: string)
    requires Reachable(s0, actions) && InRoot(key) && NoneOwes(Reached(s0, actions).procs, key)
    requires var s := Reached(s0, actions).shared; key in s.db && Told(s.log, key) != Kept(s.db, key)
    ensures !Polite(s0, actions, key)
  {
    if Polite(s0, actions, key) {
      PoliteLogIsTrue(s0, actions, key);
    }
  }

  /** A schedule from the start on which a delete removes a report that its validator refuses. */
  lemma AnUnseenReportGoes() returns (acts: seq<Action>, last: Action)
    ensures Reachable(STARTED, acts) && Reachable(STARTED, acts + [last]) && last.Move?
    ensures var s, s', key := Reached(STARTED, acts), Reached(STARTED, acts + [last]), KeyOf(FIRST_REPORT);
            && key in s.shared.db && key !in s'.shared.db
            && last.i < |s'.procs| && s'.procs[last.i].AnnounceDeleted?
            && s'.procs[last.i].report != ReportAt(s.shared.db[key])
  {
    var stored := StoresFirst();
    acts, last := DeleteCanTakeAnother(STARTED, stored, KeyOf(FIRST_REPORT));
  }

  /** A schedule from the start that ends with nothing of the report to announce, and with the log behind the store. */
  lemma ALogEndsStale() returns (acts: seq<Action>)
    ensures Reachable(STARTED, acts) && !Polite(STARTED, acts, KeyOf(FIRST_REPORT))
    ensures NoneOwes(Reached(STARTED, acts).procs, KeyOf(FIRST_REPORT))
    ensures var s, key := Reached(STARTED, acts).shared, KeyOf(FIRST_REPORT);
            key in s.db && Told(s.log, key) != Kept(s.db, key)
  {
    var stored := StoresFirst();
    var r, r';
    acts, r, r' := LogCanEndStale(STARTED, stored, KeyOf(FIRST_REPORT));
    DoneOwesNothing(Reached(STARTED, stored).procs, AnnounceAdded(r), AnnounceAdded(r'), Accepted(r'), Accepted(r),
                    KeyOf(FIRST_REPORT));
    StaleIsImpolite(STARTED, acts, KeyOf(FIRST_REPORT));
  }
}

/**
  What a watcher may rely on when requests interleave: which schedules leave the
  log telling of each report what the database stores.
 */
module Watching {
  import opened Wrappers
  import opened Keys
  import opened Codec
  import opened InMemory
  import opened Listing
  import opened Handlers
  import opened Abstraction
  import opened Machine
  import opened Accounting
  import Runs

  function EventKey(e: Event): string {
    match e
    case Added(r) => KeyOf(r)
    case Deleted(r) => KeyOf(r)
    case DeletedObject(f) => FieldsKey(f)
  }

  /** What an event says is stored under its key. */
  function Tells(e: Event): Option<Report> {
    if e.Added? then Some(Norm(e.report)) else None
  }

  /** What the log last told of `key`. */
  function Told(log: seq<Event>, key: string): Option<Report> {
    if |log| == 0 then None
    else
      var last := log[|log| - 1];
      if EventKey(last) == key then Tells(last) else Told(log[..|log| - 1], key)
  }

  lemma ToldSnoc(log: seq<Event>, e: Event, key: string)
    ensures Told(log + [e], key) == if EventKey(e) == key then Tells(e) else Told(log, key)
  {
    assert (log + [e])[..|log|] == log;
  }

  /** What the database stores under `key`. */
  function Kept(db: Db, key: string): Option<Report> {
    if key in db then Some(ReportAt(db[key])) else None
  }

  /** Whether the last call that achieved something at `key` was a forced update that found nothing there. */
  predicate EndsInFailedForce(history: seq<Record>, key: string) {
    |history| > 0 &&
    var last := history[|history| - 1];
    if last.key == key then FailedForce(last) else EndsInFailedForce(history[..|history| - 1], key)
  }

  lemma FailedForceSnoc(history: seq<Record>, last: Record, key: string)
    ensures EndsInFailedForce(history + [last], key) ==
            if last.key == key then FailedForce(last) else EndsInFailedForce(history, key)
  {
    assert (history + [last])[..|history|] == history;
  }

  /** The step announces something of `key`. */
  predicate Owes(pc: Pc, key: string) {
    |Says(pc)| == 1 && EventKey(Says(pc)[0]) == key
  }

  /** The step achieves something at `key`. */
  predicate Touches(db: Db, pc: Pc, key: string) {
    |Achieves(db, pc)| == 1 && Achieves(db, pc)[0].key == key
  }

  /** What a record makes of the report under its key, as those hear of it who are told. */
  function Leaves(record: Record): Option<Report> {
    if record.Removal? then None else Some(ReportAt(record.value))
  }

  predicate FailedForce(record: Record) {
    record.Forced? && !record.applied
  }

  /** What a record really makes of it: a failed forced update finds nothing and leaves nothing. */
  function Remains(record: Record): Option<Report> {
    if FailedForce(record) then None else Leaves(record)
  }

  // ----- One step -----

  /** A step that announces something does no more than that; a second announcement is of the same report. */
  lemma AfterAnnouncing(s: Shared, pc: Pc, order: seq<string>)
    requires StepWalk(s.db, pc, order) && |Says(pc)| == 1
    ensures var (s', pc') := Advance(s, pc, order);
            && s' == s.(log := s.log + [Says(pc)[0]])
            && (Says(pc') == [] || (pc.AnnounceDeleted? && Says(pc') == [DeletedObject(Marshal(pc.report))]))
            && (Says(pc') != [] ==> Tells(Says(pc')[0]) == None == Tells(Says(pc)[0]))
  {
  }

  lemma SameKey(r: Report)
    ensures FieldsKey(Marshal(r)) == KeyOf(r)
  {
  }

  /** A step that neither achieves nor announces anything owes nothing. */
  lemma AfterNeither(s: Shared, pc: Pc, order: seq<string>)
    requires StepWalk(s.db, pc, order) && Says(pc) == [] && Achieves(s.db, pc) == []
    ensures Advance(s, pc, order).0 == s && Says(Advance(s, pc, order).1) == []
  {
  }

  lemma AfterAchieving(s: Shared, pc: Pc, order: seq<string>)
    requires StepWalk(s.db, pc, order) && Achieves(s.db, pc) != []
    ensures var (s', pc') := Advance(s, pc, order);
            && s'.log == s.log && s'.history == s.history + [Achieves(s.db, pc)[0]]
            && s'.db == Replayed(s.db, Achieves(s.db, pc)[0])
            && |Says(pc')| == 1 && EventKey(Says(pc')[0]) == Achieves(s.db, pc)[0].key
  {
  }

  /** What is announced after an achievement is what the achievement leaves. */
  lemma NewsIsRight(s: Shared, pc: Pc, order: seq<string>)
    requires StepWalk(s.db, pc, order) && Achieves(s.db, pc) != []
    ensures var pc' := Advance(s, pc, order).1;
            |Says(pc')| == 1 && Tells(Says(pc')[0]) == Leaves(Achieves(s.db, pc)[0])
  {
    if !pc.StoreDelete? {
      StoredIsSound(pc.report, pc.modified);
    }
  }

  /** What an achievement leaves in the database. */
  lemma DatabaseRemains(db: Db, pc: Pc, key: string)
    requires Touches(db, pc, key)
    ensures Kept(Replayed(db, Achieves(db, pc)[0]), key) == Remains(Achieves(db, pc)[0])
  {
  }

  /** A step that achieves something at a key owes the news. */
  lemma TouchOwes(s: Shared, pc: Pc, order: seq<string>, key: string)
    requires StepWalk(s.db, pc, order) && Touches(s.db, pc, key)
    ensures var (s', pc') := Advance(s, pc, order);
            var record := Achieves(s.db, pc)[0];
            && Owes(pc', key) && Tells(Says(pc')[0]) == Leaves(record)
            && Kept(s'.db, key) == Remains(record)
            && (EndsInFailedForce(s'.history, key) <==> FailedForce(record))
            && s'.log == s.log
  {
    AfterAchieving(s, pc, order);
    NewsIsRight(s, pc, order);
    DatabaseRemains(s.db, pc, key);
    FailedForceSnoc(s.history, Achieves(s.db, pc)[0], key);
  }

  /** A step that announces something of a key goes on to say the same of it, or nothing. */
  lemma OweTells(s: Shared, pc: Pc, order: seq<string>, key: string)
    requires StepWalk(s.db, pc, order) && Owes(pc, key)
    ensures var (s', pc') := Advance(s, pc, order);
            && s'.db == s.db && s'.history == s.history
            && Told(s'.log, key) == Tells(Says(pc)[0])
            && (Owes(pc', key) ==> Tells(Says(pc')[0]) == Tells(Says(pc)[0]))
  {
    var e := Says(pc)[0];
    AfterAnnouncing(s, pc, order);
    assert EventKey(e) == key;
    ToldSnoc(s.log, e, key);
  }

  /** The step leaves everything about the key as it was. */
  ghost predicate Passes(s: Shared, s': Shared, pc': Pc, key: string) {
    && !Owes(pc', key)
    && Told(s'.log, key) == Told(s.log, key)
    && Kept(s'.db, key) == Kept(s.db, key)
    && EndsInFailedForce(s'.history, key) == EndsInFailedForce(s.history, key)
  }

  lemma AchievesElsewhere(s: Shared, pc: Pc, order: seq<string>, key: string)
    requires StepWalk(s.db, pc, order) && Achieves(s.db, pc) != [] && !Touches(s.db, pc, key)
    ensures Passes(s, Advance(s, pc, order).0, Advance(s, pc, order).1, key)
  {
    AfterAchieving(s, pc, order);
    FailedForceSnoc(s.history, Achieves(s.db, pc)[0], key);
  }

  lemma AnnouncesElsewhere(s: Shared, pc: Pc, order: seq<string>, key: string)
    requires StepWalk(s.db, pc, order) && Says(pc) != [] && !Owes(pc, key)
    ensures Passes(s, Advance(s, pc, order).0, Advance(s, pc, order).1, key)
  {
    AfterAnnouncing(s, pc, order);
    ToldSnoc(s.log, Says(pc)[0], key);
    if pc.AnnounceDeleted? {
      SameKey(pc.report);
    }
  }

  /** Any other step leaves everything about the key as it was. */
  lemma OtherStep(s: Shared, pc: Pc, order: seq<string>, key: string)
    requires StepWalk(s.db, pc, order) && !Touches(s.db, pc, key) && !Owes(pc, key)
    ensures Passes(s, Advance(s, pc, order).0, Advance(s, pc, order).1, key)
  {
    if Achieves(s.db, pc) != [] {
      AchievesElsewhere(s, pc, order, key);
    } else if Says(pc) != [] {
      AnnouncesElsewhere(s, pc, order, key);
    } else {
      AfterNeither(s, pc, order);
    }
  }

  // ----- Who acted last, and who spoke last -----

  /**
    Of one key: the request that last achieved something there, the request that
    last announced something of it, and what each request last achieved there.
   */
  datatype Books = Books(doer: Option<nat>, speaker: Option<nat>, last: map<nat, Record>)

  function Entered(b: Books, db: Db, pc: Pc, i: nat, key: string): Books {
    if Touches(db, pc, key) then b.(doer := Some(i), last := b.last[i := Achieves(db, pc)[0]])
    else if Owes(pc, key) then b.(speaker := Some(i))
    else b
  }

  ghost function BooksOf(s0: Sys, actions: seq<Action>, key: string): Books
    requires Reachable(s0, actions)
  {
    if |actions| == 0 then Books(None, None, map[])
    else
      var prior, a := actions[..|actions| - 1], actions[|actions| - 1];
      var s, b := Reached(s0, prior), BooksOf(s0, prior, key);
      if a.Move? then Entered(b, s.shared.db, s.procs[a.i], a.i, key) else b
  }

  ghost predicate NoneOwes(procs: seq<Pc>, key: string) {
    forall i :: 0 <= i < |procs| ==> !Owes(procs[i], key)
  }

  /** Whoever has achieved something is a request, and whoever owes news owes that of what it last achieved. */
  ghost predicate NewsIsBooked(procs: seq<Pc>, b: Books, key: string) {
    && (forall i :: i in b.last ==> i < |procs|)
    && (forall i :: 0 <= i < |procs| && Owes(procs[i], key) ==>
          i in b.last && Tells(Says(procs[i])[0]) == Leaves(b.last[i]))
  }

  /** The log tells what the last speaker last achieved, unless it owes more news; a silent log tells nothing. */
  ghost predicate SpeakerIsHeard(s: Sys, b: Books, key: string) {
    match b.speaker
    case None =>
      && Told(s.shared.log, key) == None
      && (forall i :: i in b.last && i < |s.procs| ==> Owes(s.procs[i], key))
    case Some(i) =>
      && i in b.last && i < |s.procs|
      && (!Owes(s.procs[i], key) ==> Told(s.shared.log, key) == Leaves(b.last[i]))
  }

  /** The database holds what remains of what the last doer achieved. */
  ghost predicate DoerIsObeyed(s: Shared, b: Books, key: string) {
    match b.doer
    case None => b.last == map[] && Kept(s.db, key) == None && !EndsInFailedForce(s.history, key)
    case Some(i) =>
      && i in b.last && Kept(s.db, key) == Remains(b.last[i])
      && (EndsInFailedForce(s.history, key) <==> FailedForce(b.last[i]))
  }

  ghost predicate Booked(s: Sys, b: Books, key: string) {
    NewsIsBooked(s.procs, b, key) && SpeakerIsHeard(s, b, key) && DoerIsObeyed(s.shared, b, key)
  }

  lemma NewsStaysBooked(procs: seq<Pc>, b: Books, i: nat, pc: Pc, key: string)
    requires NewsIsBooked(procs, b, key) && i < |procs|
    requires Owes(pc, key) ==> i in b.last && Tells(Says(pc)[0]) == Leaves(b.last[i])
    ensures NewsIsBooked(procs[i := pc], b, key)
  {
  }

  lemma NewsIsEntered(procs: seq<Pc>, b: Books, i: nat, pc: Pc, record: Record, key: string)
    requires NewsIsBooked(procs, b, key) && i < |procs|
    requires Owes(pc, key) && Tells(Says(pc)[0]) == Leaves(record)
    ensures NewsIsBooked(procs[i := pc], b.(doer := Some(i), last := b.last[i := record]), key)
  {
  }

  lemma TouchIsBooked(s: Sys, i: nat, order: seq<string>, key: string, b: Books)
    requires Enabled(s, Move(i, order)) && Booked(s, b, key) && Touches(s.shared.db, s.procs[i], key)
    ensures Booked(Perform(s, Move(i, order)), Entered(b, s.shared.db, s.procs[i], i, key), key)
  {
    var pc' := Advance(s.shared, s.procs[i], order).1;
    TouchOwes(s.shared, s.procs[i], order, key);
    NewsIsEntered(s.procs, b, i, pc', Achieves(s.shared.db, s.procs[i])[0], key);
  }

  lemma NewsIsSpoken(s: Sys, i: nat, order: seq<string>, key: string, b: Books)
    requires Enabled(s, Move(i, order)) && Booked(s, b, key)
    requires Owes(s.procs[i], key) && !Touches(s.shared.db, s.procs[i], key)
    ensures Booked(Perform(s, Move(i, order)), Entered(b, s.shared.db, s.procs[i], i, key), key)
  {
    OweTells(s.shared, s.procs[i], order, key);
    NewsStaysBooked(s.procs, b, i, Advance(s.shared, s.procs[i], order).1, key);
  }

  lemma OtherIsBooked(s: Sys, i: nat, order: seq<string>, key: string, b: Books)
    requires Enabled(s, Move(i, order)) && Booked(s, b, key)
    requires !Owes(s.procs[i], key) && !Touches(s.shared.db, s.procs[i], key)
    ensures Booked(Perform(s, Move(i, order)), b, key)
  {
    OtherStep(s.shared, s.procs[i], order, key);
    NewsStaysBooked(s.procs, b, i, Advance(s.shared, s.procs[i], order).1, key);
  }

  lemma ArrivalIsBooked(s: Sys, q: Request, key: string, b: Books)
    requires Booked(s, b, key)
    ensures Booked(Perform(s, Arrive(q)), b, key)
  {
    assert !Owes(Start(q), key);
  }

  /** In every reachable state the books are right. */
  lemma {:induction false} BooksAreRight(s0: Sys, actions: seq<Action>, key: string)
    requires Reachable(s0, actions) && InRoot(key)
    ensures Booked(Reached(s0, actions), BooksOf(s0, actions, key), key)
  {
    if |actions| > 0 {
      LastAction(s0, actions);
      var prior := actions[..|actions| - 1];
      BooksAreRight(s0, prior, key);
      var s, b := Reached(s0, prior), BooksOf(s0, prior, key);
      match actions[|actions| - 1]
      case Arrive(q) => ArrivalIsBooked(s, q, key, b);
      case Move(i, order) =>
        if Touches(s.shared.db, s.procs[i], key) {
          TouchIsBooked(s, i, order, key, b);
        } else if Owes(s.procs[i], key) {
          NewsIsSpoken(s, i, order, key, b);
        } else {
          OtherIsBooked(s, i, order, key, b);
        }
      case Foreign(_) =>
    }
  }

  /** What the request that spoke last of the key last achieved there. */
  function Spoken(b: Books): Option<Report> {
    if b.speaker.Some? && b.speaker.value in b.last then Leaves(b.last[b.speaker.value]) else None
  }

  /** What remains of what the request that acted last on the key achieved there. */
  function Standing(b: Books): Option<Report> {
    if b.doer.Some? && b.doer.value in b.last then Remains(b.last[b.doer.value]) else None
  }

  ghost predicate SpeakerIsDone(procs: seq<Pc>, b: Books, key: string) {
    b.speaker.Some? && b.speaker.value < |procs| ==> !Owes(procs[b.speaker.value], key)
  }

  /**
    Under any interleaving, wherever the request that spoke last of a key has no
    news of it left: the log tells what is stored if and only if what that request
    last achieved is what remains of what the last doer achieved.  When no request
    has any news left, someone has spoken exactly when someone has acted.
   */
  lemma SpeakerDecides(s0: Sys, actions: seq<Action>, key: string)
    requires Reachable(s0, actions) && InRoot(key)
    requires SpeakerIsDone(Reached(s0, actions).procs, BooksOf(s0, actions, key), key)
    ensures var s, b := Reached(s0, actions), BooksOf(s0, actions, key);
            && (Told(s.shared.log, key) == Kept(s.shared.db, key) <==> Spoken(b) == Standing(b))
            && (NoneOwes(s.procs, key) ==> (b.speaker.Some? <==> b.doer.Some?))
  {
    BooksAreRight(s0, actions, key);
  }

  /**
    Where the last doer is also the last speaker and has no news left, that is so
    exactly when what was achieved last is not a failed forced update.
   */
  lemma LastWordIsTrue(s0: Sys, actions: seq<Action>, key: string)
    requires Reachable(s0, actions) && InRoot(key)
    requires SpeakerIsDone(Reached(s0, actions).procs, BooksOf(s0, actions, key), key)
    requires BooksOf(s0, actions, key).speaker == BooksOf(s0, actions, key).doer
    ensures var s := Reached(s0, actions).shared;
            && (Told(s.log, key) == Kept(s.db, key) <==> !EndsInFailedForce(s.history, key))
            && (EndsInFailedForce(s.history, key) ==> key !in s.db)
  {
    BooksAreRight(s0, actions, key);
  }

  // ----- Polite schedules -----

  /** Nothing is achieved at `key` while news of it is still to be announced. */
  ghost predicate Polite(s0: Sys, actions: seq<Action>, key: string)
    requires Reachable(s0, actions)
  {
    |actions| == 0 ||
    var prior, a := actions[..|actions| - 1], actions[|actions| - 1];
    var s := Reached(s0, prior);
    && Polite(s0, prior, key)
    && (a.Move? && Touches(s.shared.db, s.procs[a.i], key) ==> NoneOwes(s.procs, key))
  }

  /** Only the last doer may owe news, and when it does not it was the last to speak. */
  ghost predicate InTurns(procs: seq<Pc>, b: Books, key: string) {
    && (forall i :: 0 <= i < |procs| && Owes(procs[i], key) ==> b.doer == Some(i))
    && (NoneOwes(procs, key) ==> b.speaker == b.doer)
  }

  lemma OthersStay(procs: seq<Pc>, i: nat, pc: Pc, key: string)
    requires i < |procs|
    ensures !Owes(procs[i], key) && NoneOwes(procs[i := pc], key) ==> NoneOwes(procs, key)
  {
    if NoneOwes(procs[i := pc], key) {
      forall j | 0 <= j < |procs| && j != i
        ensures !Owes(procs[j], key)
      {
        assert procs[i := pc][j] == procs[j];
      }
    }
  }

  lemma MoveStaysInTurns(s: Sys, i: nat, order: seq<string>, key: string, b: Books)
    requires Enabled(s, Move(i, order)) && InTurns(s.procs, b, key)
    requires Touches(s.shared.db, s.procs[i], key) ==> NoneOwes(s.procs, key)
    ensures InTurns(Perform(s, Move(i, order)).procs, Entered(b, s.shared.db, s.procs[i], i, key), key)
  {
    var pc := s.procs[i];
    var pc' := Advance(s.shared, pc, order).1;
    var procs := s.procs[i := pc'];
    assert procs[i] == pc' && forall j :: 0 <= j < |procs| && j != i ==> procs[j] == s.procs[j];
    if Touches(s.shared.db, pc, key) {
      TouchOwes(s.shared, pc, order, key);
    } else if !Owes(pc, key) {
      OtherStep(s.shared, pc, order, key);
      OthersStay(s.procs, i, pc', key);
    }
  }

  lemma ArrivalStaysInTurns(procs: seq<Pc>, q: Request, key: string, b: Books)
    requires InTurns(procs, b, key)
    ensures InTurns(procs + [Start(q)], b, key)
  {
    var all := procs + [Start(q)];
    assert forall j :: 0 <= j < |procs| ==> all[j] == procs[j];
    assert NoneOwes(all, key) ==> NoneOwes(procs, key);
  }

  lemma {:induction false} PoliteStaysInTurns(s0: Sys, actions: seq<Action>, key: string)
    requires Reachable(s0, actions) && Polite(s0, actions, key)
    ensures InTurns(Reached(s0, actions).procs, BooksOf(s0, actions, key), key)
  {
    if |actions| > 0 {
      LastAction(s0, actions);
      var prior := actions[..|actions| - 1];
      PoliteStaysInTurns(s0, prior, key);
      var s, b := Reached(s0, prior), BooksOf(s0, prior, key);
      match actions[|actions| - 1]
      case Arrive(q) => ArrivalStaysInTurns(s.procs, q, key, b);
      case Move(i, order) => MoveStaysInTurns(s, i, order, key, b);
      case Foreign(_) =>
    }
  }

  /** On a polite schedule, when no news of a key is due, the log tells what is stored unless a force failed last. */
  lemma PoliteLogIsTrue(s0: Sys, actions: seq<Action>, key: string)
    requires Reachable(s0, actions) && InRoot(key) && Polite(s0, actions, key)
    requires NoneOwes(Reached(s0, actions).procs, key)
    ensures var s := Reached(s0, actions).shared;
            && (Told(s.log, key) == Kept(s.db, key) <==> !EndsInFailedForce(s.history, key))
            && (EndsInFailedForce(s.history, key) ==> key !in s.db)
  {
    PoliteStaysInTurns(s0, actions, key);
    LastWordIsTrue(s0, actions, key);
  }

  ghost predicate OthersOweNothing(procs: seq<Pc>, i: nat, key: string) {
    forall j :: 0 <= j < |procs| && j != i ==> !Owes(procs[j], key)
  }

  lemma AloneOwes(s: Sys, i: nat, order: seq<string>, key: string)
    requires Enabled(s, Move(i, order)) && OthersOweNothing(s.procs, i, key)
    ensures Touches(s.shared.db, s.procs[i], key) ==> NoneOwes(s.procs, key)
    ensures OthersOweNothing(Perform(s, Move(i, order)).procs, i, key)
  {
    assert Touches(s.shared.db, s.procs[i], key) ==> !Owes(s.procs[i], key);
  }

  /** Requests that are left alone one after the other are polite: the moves of one, while no other owes news. */
  lemma {:induction false} AloneIsPolite(s0: Sys, actions: seq<Action>, more: seq<Action>, i: nat, key: string)
    requires Reachable(s0, actions) && Polite(s0, actions, key) && Reachable(s0, actions + more)
    requires forall a :: a in more ==> a.Move? && a.i == i
    requires OthersOweNothing(Reached(s0, actions).procs, i, key)
    ensures Polite(s0, actions + more, key)
    ensures OthersOweNothing(Reached(s0, actions + more).procs, i, key)
    decreases |more|
  {
    if |more| == 0 {
      assert actions + more == actions;
    } else {
      var n := |more| - 1;
      assert (actions + more)[..|actions + more| - 1] == actions + more[..n];
      assert more[n] in more;
      LastAction(s0, actions + more);
      AloneIsPolite(s0, actions, more[..n], i, key);
      AloneOwes(Reached(s0, actions + more[..n]), i, more[n].order, key);
    }
  }

  // ----- From keys to namespaces and names -----

  function EventId(e: Event): Id {
    match e
    case Added(r) => IdOf(r)
    case Deleted(r) => IdOf(r)
    case DeletedObject(f) => Runs.FieldsId(f)
  }

  /** All that a request still has to write or to say is of reports in path-segment namespaces. */
  ghost predicate PcSegmented(pc: Pc) {
    match pc
    case Start(q) => Legal(q)
    case StoreCreate(r, _) => SlashFree(r.namespace)
    case ReadVersion(r, _) => SlashFree(r.namespace)
    case StoreUpdate(r, _) => SlashFree(r.namespace)
    case StoreForced(r, _) => SlashFree(r.namespace)
    case AnnounceAdded(r) => SlashFree(r.namespace)
    case StoreDelete(r, _) => SlashFree(r.namespace)
    case AnnounceDeleted(r, _) => SlashFree(r.namespace)
    case AnnounceObject(f, _) => SlashFree(Runs.FieldsId(f).namespace)
    case NextItem(_) => true
    case Done(_) => true
  }

  ghost predicate LogSegmented(log: seq<Event>) {
    forall i :: 0 <= i < |log| ==> SlashFree(EventId(log[i]).namespace)
  }

  ghost predicate SysSegmented(s: Sys) {
    && Segmented(s.shared.db) && LogSegmented(s.shared.log)
    && forall i :: 0 <= i < |s.procs| ==> PcSegmented(s.procs[i])
  }

  ghost predicate LegalSchedule(actions: seq<Action>) {
    forall a :: a in actions && a.Arrive? ==> Legal(a.q)
  }

  lemma FetchIsSegmented(db: Db, name: string, namespace: string)
    requires AllSound(db) && Segmented(db) && GetReport(db, name, namespace).Fetched?
    ensures SlashFree(GetReport(db, name, namespace).report.namespace)
  {
    FetchIsSound(db, name, namespace);
    RootExact(V1ALPHA2, V1ALPHA2, name, namespace);
  }

  lemma BeginIsSegmented(s: Shared, q: Request, order: seq<string>)
    requires AllSound(s.db) && Segmented(s.db) && Legal(q) && Walk(s.db, q, order)
    ensures PcSegmented(Begin(s, q, order))
  {
    if q.Delete? && GetReport(s.db, q.name, q.namespace).Fetched? {
      FetchIsSegmented(s.db, q.name, q.namespace);
    }
  }

  lemma BeginItemIsSegmented(s: Shared, l: Loop)
    requires AllSound(s.db) && Segmented(s.db)
    ensures PcSegmented(BeginItem(s, l))
  {
    if l.next < |l.items| && GetReport(s.db, l.items[l.next].name, l.namespace).Fetched? {
      FetchIsSegmented(s.db, l.items[l.next].name, l.namespace);
    }
  }

  lemma PcStaysSegmented(s: Shared, pc: Pc, order: seq<string>)
    requires AllSound(s.db) && Segmented(s.db) && StepWalk(s.db, pc, order) && PcSegmented(pc)
    ensures PcSegmented(Advance(s, pc, order).1)
  {
    match pc
    case Start(q) => BeginIsSegmented(s, q, order);
    case NextItem(l) => BeginItemIsSegmented(s, l);
    case _ =>
  }

  lemma SharedStaysSegmented(s: Shared, pc: Pc, order: seq<string>)
    requires AllSound(s.db) && Segmented(s.db) && LogSegmented(s.log) && StepWalk(s.db, pc, order)
    requires PcSound(pc) && PcSegmented(pc)
    ensures Segmented(Advance(s, pc, order).0.db) && LogSegmented(Advance(s, pc, order).0.log)
  {
    if pc.StoreCreate? || pc.StoreUpdate? || pc.StoreForced? {
      PutKeepsSound(s.db, pc.report, pc.modified);
    }
  }

  lemma {:induction false} ReachableIsSegmented(s0: Sys, actions: seq<Action>)
    requires Reachable(s0, actions) && LegalSchedule(actions)
    ensures SysSegmented(Reached(s0, actions))
  {
    if |actions| > 0 {
      LastAction(s0, actions);
      var n := |actions| - 1;
      ReachableIsSegmented(s0, actions[..n]);
      ReachableIsSound(s0, actions[..n]);
      var before := Reached(s0, actions[..n]);
      match actions[n]
      case Arrive(_) =>
      case Move(i, order) =>
        PcStaysSegmented(before.shared, before.procs[i], order);
        SharedStaysSegmented(before.shared, before.procs[i], order);
      case Foreign(db) => AbsAgree(before.shared.db, db);
    }
  }

  lemma EventKeyIsExact(e: Event, id: Id)
    requires SlashFree(EventId(e).namespace) && SlashFree(id.namespace)
    ensures EventKey(e) == KeyAt(id) <==> EventId(e) == id
  {
    KeyInjective(V1ALPHA2, EventId(e).name, EventId(e).namespace, V1ALPHA2, id.name, id.namespace);
  }

  function Lookup(m: map<Id, Report>, id: Id): Option<Report> {
    if id in m then Some(m[id]) else None
  }

  /** Folding the log is remembering what it last told of each report. */
  lemma {:induction false} ReplayIsTold(log: seq<Event>, id: Id)
    requires LogSegmented(log) && SlashFree(id.namespace)
    ensures Lookup(Runs.Replay(log), id) == Told(log, KeyAt(id))
  {
    if |log| > 0 {
      ReplayIsTold(log[..|log| - 1], id);
      EventKeyIsExact(log[|log| - 1], id);
    }
  }

  lemma {:induction false} ReplayIsSegmented(log: seq<Event>, id: Id)
    requires LogSegmented(log) && id in Runs.Replay(log)
    ensures SlashFree(id.namespace)
  {
    if |log| > 0 && id != EventId(log[|log| - 1]) {
      ReplayIsSegmented(log[..|log| - 1], id);
    }
  }

  lemma AbsIsKept(db: Db, id: Id)
    requires AllSound(db) && Segmented(db) && SlashFree(id.namespace)
    ensures Lookup(Abs(db), id) == Kept(db, KeyAt(id))
  {
    AbsAt(db, id);
  }

  /** The folded log and the abstract store, looked up by identity, are what is told and kept under its key. */
  lemma LookupsAreByKey(s0: Sys, actions: seq<Action>, id: Id)
    requires Reachable(s0, actions) && LegalSchedule(actions) && SlashFree(id.namespace)
    ensures var s := Reached(s0, actions).shared;
            && AllSound(s.db)
            && Lookup(Runs.Replay(s.log), id) == Told(s.log, KeyAt(id))
            && Lookup(Abs(s.db), id) == Kept(s.db, KeyAt(id))
  {
    ReachableIsSound(s0, actions);
    ReachableIsSegmented(s0, actions);
    ReplayIsTold(Reached(s0, actions).shared.log, id);
    AbsIsKept(Reached(s0, actions).shared.db, id);
  }

  lemma KeyAtIsInRoot(id: Id)
    ensures InRoot(KeyAt(id))
  {
    RootExact(V1ALPHA2, V1ALPHA2, id.name, id.namespace);
  }

  /** Under any interleaving the folded log and the store agree on a report exactly as the books of its key say. */
  lemma ReplayDecides(s0: Sys, actions: seq<Action>, id: Id)
    requires Reachable(s0, actions) && LegalSchedule(actions) && SlashFree(id.namespace)
    requires SpeakerIsDone(Reached(s0, actions).procs, BooksOf(s0, actions, KeyAt(id)), KeyAt(id))
    ensures var s, b := Reached(s0, actions).shared, BooksOf(s0, actions, KeyAt(id));
            AllSound(s.db) && (Lookup(Runs.Replay(s.log), id) == Lookup(Abs(s.db), id) <==> Spoken(b) == Standing(b))
  {
    LookupsAreByKey(s0, actions, id);
    KeyAtIsInRoot(id);
    SpeakerDecides(s0, actions, KeyAt(id));
  }

  /** On a schedule polite at a report's key, log and store agree on it, unless a force failed last. */
  lemma PoliteReplay(s0: Sys, actions: seq<Action>, id: Id)
    requires Reachable(s0, actions) && LegalSchedule(actions) && SlashFree(id.namespace)
    requires Polite(s0, actions, KeyAt(id)) && NoneOwes(Reached(s0, actions).procs, KeyAt(id))
    ensures var s := Reached(s0, actions).shared;
            && AllSound(s.db)
            && (Lookup(Runs.Replay(s.log), id) == Lookup(Abs(s.db), id) <==> !EndsInFailedForce(s.history, KeyAt(id)))
  {
    LookupsAreByKey(s0, actions, id);
    KeyAtIsInRoot(id);
    PoliteLogIsTrue(s0, actions, KeyAt(id));
  }

  lemma SameLookups(a: map<Id, Report>, b: map<Id, Report>)
    requires forall id :: Lookup(a, id) == Lookup(b, id)
    ensures a == b
  {
    forall id
      ensures id in a <==> id in b
      ensures id in a ==> a[id] == b[id]
    {
      assert Lookup(a, id) == Lookup(b, id);
    }
    SameMap(a, b);
  }

  /** The folded log is the abstract store if they agree on every report of a path-segment namespace. */
  lemma AgreeingIsEqual(s0: Sys, actions: seq<Action>)
    requires Reachable(s0, actions) && LegalSchedule(actions)
    ensures var s := Reached(s0, actions).shared;
            && AllSound(s.db)
            && (Runs.Replay(s.log) == Abs(s.db) <==>
                forall id: Id :: SlashFree(id.namespace) ==> Lookup(Runs.Replay(s.log), id) == Lookup(Abs(s.db), id))
  {
    ReachableIsSound(s0, actions);
    ReachableIsSegmented(s0, actions);
    var s := Reached(s0, actions).shared;
    var seen, stored := Runs.Replay(s.log), Abs(s.db);
    forall id: Id | !SlashFree(id.namespace)
      ensures id !in seen && id !in stored
    {
      if id in seen {
        ReplayIsSegmented(s.log, id);
      }
      AbsAt(s.db, id);
    }
    if forall id: Id :: SlashFree(id.namespace) ==> Lookup(seen, id) == Lookup(stored, id) {
      SameLookups(seen, stored);
    }
  }

  /**
    Under any interleaving, with nothing left to announce: the folded log is the
    decoded store if and only if, for every key, what its last speaker last
    achieved is what remains of what its last doer achieved.
   */
  lemma ReplayIsStoreExactly(s0: Sys, actions: seq<Action>)
    requires Reachable(s0, actions) && LegalSchedule(actions)
    requires forall id: Id :: SlashFree(id.namespace) ==> NoneOwes(Reached(s0, actions).procs, KeyAt(id))
    ensures var s := Reached(s0, actions).shared;
            && AllSound(s.db)
            && (Runs.Replay(s.log) == Abs(s.db) <==>
                forall id: Id :: SlashFree(id.namespace) ==>
                  Spoken(BooksOf(s0, actions, KeyAt(id))) == Standing(BooksOf(s0, actions, KeyAt(id))))
  {
    AgreeingIsEqual(s0, actions);
    forall id: Id | SlashFree(id.namespace)
      ensures var s, b := Reached(s0, actions).shared, BooksOf(s0, actions, KeyAt(id));
              AllSound(s.db) && (Lookup(Runs.Replay(s.log), id) == Lookup(Abs(s.db), id) <==> Spoken(b) == Standing(b))
    {
      ReplayDecides(s0, actions, id);
    }
  }

  /**
    When requests interleave politely at every key and nothing is left to
    announce, the folded log is the decoded store if and only if no key was last
    touched by a forced update that found nothing there.
   */
  lemma PoliteReplayIsStore(s0: Sys, actions: seq<Action>)
    requires Reachable(s0, actions) && LegalSchedule(actions)
    requires forall id: Id :: SlashFree(id.namespace) ==>
               Polite(s0, actions, KeyAt(id)) && NoneOwes(Reached(s0, actions).procs, KeyAt(id))
    ensures var s := Reached(s0, actions).shared;
            && AllSound(s.db)
            && (Runs.Replay(s.log) == Abs(s.db) <==>
                forall id: Id :: SlashFree(id.namespace) ==> !EndsInFailedForce(s.history, KeyAt(id)))
  {
    AgreeingIsEqual(s0, actions);
    forall id: Id | SlashFree(id.namespace)
      ensures var s := Reached(s0, actions).shared;
              && AllSound(s.db)
              && (Lookup(Runs.Replay(s.log), id) == Lookup(Abs(s.db), id) <==> !EndsInFailedForce(s.history, KeyAt(id)))
    {
      PoliteReplay(s0, actions, id);
    }
  }
}

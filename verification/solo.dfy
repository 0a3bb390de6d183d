/**
  A request that nothing interrupts: its atomic steps, taken in a row, have the
  effect and the response that the sequential handlers give.
 */
module Solo {
  import opened Wrappers
  import opened Keys
  import opened Codec
  import opened InMemory
  import opened Listing
  import opened Handlers
  import opened Store
  import opened Machine

  /** A request inside the collection loop is at one of its items. */
  predicate AtItem(pc: Pc) {
    match pc
    case StoreDelete(_, Some(l)) => l.next < |l.items|
    case AnnounceDeleted(_, Some(l)) => l.next < |l.items|
    case AnnounceObject(_, l) => l.next < |l.items|
    case NextItem(l) => l.next <= |l.items|
    case _ => true
  }

  function Left(loop: Option<Loop>): nat {
    match loop
    case None => 0
    case Some(l) => if l.next <= |l.items| then |l.items| - l.next else 0
  }

  /** Every step takes a request closer to its end. */
  function Phase(pc: Pc): nat {
    match pc case Start(_) => 2 case Done(_) => 0 case _ => 1
  }

  function Turns(pc: Pc): nat {
    match pc
    case StoreDelete(_, loop) => Left(loop)
    case AnnounceDeleted(_, loop) => Left(loop)
    case AnnounceObject(_, l) => Left(Some(l))
    case NextItem(l) => Left(Some(l))
    case _ => 0
  }

  function Rank(pc: Pc): nat {
    match pc
    case NextItem(_) => 5
    case ReadVersion(_, _) => 4
    case StoreCreate(_, _) => 3
    case StoreUpdate(_, _) => 3
    case StoreForced(_, _) => 3
    case StoreDelete(_, _) => 3
    case AnnounceDeleted(_, _) => 2
    case AnnounceObject(_, _) => 1
    case AnnounceAdded(_) => 1
    case Start(_) => 0
    case Done(_) => 0
  }

  lemma Closer(s: Shared, pc: Pc, order: seq<string>)
    requires StepWalk(s.db, pc, order) && AtItem(pc) && !pc.Done?
    ensures var pc' := Advance(s, pc, order).1;
            && AtItem(pc')
            && (Phase(pc') < Phase(pc) || (Phase(pc') == Phase(pc) &&
                (Turns(pc') < Turns(pc) || (Turns(pc') == Turns(pc) && Rank(pc') < Rank(pc)))))
            && !pc'.Start?
  {
  }

  /** The steps of one request up to its end, with nothing in between. */
  ghost function Finish(s: Shared, pc: Pc, order: seq<string>): (Shared, Response)
    requires StepWalk(s.db, pc, order) && AtItem(pc)
    decreases Phase(pc), Turns(pc), Rank(pc)
  {
    if pc.Done? then (s, pc.response)
    else
      Closer(s, pc, order);
      var (s', pc') := Advance(s, pc, order);
      Finish(s', pc', order)
  }

  /** The finished run, without the bookkeeping. */
  ghost predicate Ends(s: Shared, pc: Pc, order: seq<string>, outcome: Outcome)
    requires StepWalk(s.db, pc, order) && AtItem(pc)
  {
    var (s', response) := Finish(s, pc, order);
    State(s'.db, s'.log) == Apply(State(s.db, s.log), outcome.effect) && response == outcome.response
  }

  lemma FinishWrite(s: Shared, pc: Pc, order: seq<string>)
    requires pc.StoreCreate? || pc.StoreUpdate? || pc.StoreForced?
    ensures var r := pc.report;
            Ends(s, pc, order,
                 if pc.StoreCreate? then
                   if KeyOf(r) in s.db then Outcome(Nothing, Failed(BadRequest(Refused)))
                   else Outcome(Wrote(Fresh, r, pc.modified), Accepted(r))
                 else if pc.StoreUpdate? then
                   if KeyOf(r) in s.db then Outcome(Wrote(Bump, r, pc.modified), Accepted(r))
                   else Outcome(Nothing, Failed(BadRequest(Refused)))
                 else Outcome(if KeyOf(r) in s.db then Wrote(Reset, r, pc.modified) else Phantom(r), Accepted(r)))
  {
    var (s', pc') := Advance(s, pc, order);
    if pc'.AnnounceAdded? {
      var (s'', pc'') := Advance(s', pc', order);
      assert Finish(s', pc', order) == Finish(s'', pc'', order);
    }
  }

  lemma FinishDelete(s: Shared, r: Report, order: seq<string>)
    ensures Ends(s, StoreDelete(r, None), order,
                 if KeyOf(r) in s.db then Outcome(Dropped([r], false), Removed(Marshal(r)))
                 else Outcome(Nothing, Failed(BadRequest(Refused))))
  {
    var (s', pc') := Advance(s, StoreDelete(r, None), order);
    if pc'.AnnounceDeleted? {
      var (s'', pc'') := Advance(s', pc', order);
      assert Finish(s', pc', order) == Finish(s'', pc'', order);
      OneDropped(PolicyReports, r);
    }
  }

  /** One item of the loop: one removal, two events, and on to the next item. */
  lemma FinishItem(s: Shared, r: Report, l: Loop, order: seq<string>)
    requires l.next < |l.items| && KeyOf(r) in s.db
    ensures var after := s.(db := s.db - {KeyOf(r)},
                            log := s.log + [Deleted(r)] + [DeletedObject(Marshal(r))],
                            history := s.history + [RemovalOf(s.db, r, Some(l))]);
            Finish(s, StoreDelete(r, Some(l)), order) == Finish(after, NextItem(l.(next := l.next + 1)), order)
  {
    var (s1, pc1) := Advance(s, StoreDelete(r, Some(l)), order);
    var (s2, pc2) := Advance(s1, pc1, order);
    assert Finish(s1, pc1, order) == Finish(s2, pc2, order);
  }

  /** What the loop comes to from the item it is at. */
  function LoopOutcome(db: Db, l: Loop): Outcome
    requires l.next <= |l.items|
  {
    var all := DeleteItems(PolicyReports, db, l.items[l.next..], l.namespace, l.validDelete);
    Outcome(Dropped(all.0, true), if all.1 then Listed(l.items) else Failed(BadRequest(NotDeleted)))
  }

  lemma LoopOutcomeStep(s: Shared, l: Loop)
    requires l.next < |l.items|
    ensures match BeginItem(s, l)
            case StoreDelete(r, loop) =>
              && loop == Some(l)
              && if KeyOf(r) in s.db then
                   var rest := LoopOutcome(s.db - {KeyOf(r)}, l.(next := l.next + 1));
                   LoopOutcome(s.db, l) == Outcome(Dropped([r] + rest.effect.reports, true), rest.response)
                 else LoopOutcome(s.db, l) == Outcome(Dropped([], true), Failed(BadRequest(NotDeleted)))
            case pc =>
              && pc == Done(Failed(BadRequest(NotDeleted)))
              && LoopOutcome(s.db, l) == Outcome(Dropped([], true), pc.response)
  {
    var items := l.items[l.next..];
    assert items[0] == l.items[l.next] && items[1..] == l.items[l.next + 1..];
  }

  lemma DropOne(st: State, r: Report, rest: seq<Report>)
    ensures var after := State(st.db - {KeyOf(r)}, st.log + [Deleted(r)] + [DeletedObject(Marshal(r))]);
            Apply(after, Dropped(rest, true)) == Apply(st, Dropped([r] + rest, true))
  {
    OneDropped(PolicyReports, r);
    assert st.log + [Deleted(r)] + [DeletedObject(Marshal(r))] == st.log + DeletionEvents([r], true);
    DropJoin(PolicyReports, st, [r], rest, true);
  }

  lemma {:induction false} FinishLoop(s: Shared, l: Loop, order: seq<string>)
    requires l.next <= |l.items|
    ensures Ends(s, NextItem(l), order, LoopOutcome(s.db, l))
    decreases |l.items| - l.next
  {
    DropNone(PolicyReports, State(s.db, s.log));
    if l.next < |l.items| {
      LoopOutcomeStep(s, l);
      var pc := BeginItem(s, l);
      assert Finish(s, NextItem(l), order) == Finish(s, pc, order);
      if pc.StoreDelete? && KeyOf(pc.report) in s.db {
        var r := pc.report;
        FinishItem(s, r, l, order);
        var after := s.(db := s.db - {KeyOf(r)},
                        log := s.log + [Deleted(r)] + [DeletedObject(Marshal(r))],
                        history := s.history + [RemovalOf(s.db, r, Some(l))]);
        FinishLoop(after, l.(next := l.next + 1), order);
        DropOne(State(s.db, s.log), r, LoopOutcome(after.db, l.(next := l.next + 1)).effect.reports);
      } else if pc.StoreDelete? {
        assert Finish(s, pc, order) == (s, Failed(BadRequest(NotDeleted)));
      }
    }
  }

  lemma FinishUpdate(s: Shared, q: Request, order: seq<string>)
    requires q.Update? && !q.force
    ensures Ends(s, Start(q), order, HandleUpdate(s.db, q))
  {
    var pc := Begin(s, q, order);
    assert Finish(s, Start(q), order) == Finish(s, pc, order);
    if pc.ReadVersion? {
      var (s', pc') := Advance(s, pc, order);
      assert Finish(s, pc, order) == Finish(s', pc', order);
      if pc'.StoreUpdate? {
        FinishWrite(s', pc', order);
      }
    }
  }

  /** Run without interruption, every request does what its sequential handler says. */
  lemma FinishIsHandle(s: Shared, q: Request, order: seq<string>)
    requires Walk(s.db, q, order)
    ensures Ends(s, Start(q), order, Handle(s.db, q, order))
  {
    var pc := Begin(s, q, order);
    assert Finish(s, Start(q), order) == Finish(s, pc, order);
    match q
    case Update(_, _, _, _, force, _, _, _) =>
      if !force {
        FinishUpdate(s, q, order);
      } else if pc.StoreForced? {
        FinishWrite(s, pc, order);
      }
    case Create(_, _, _, _, _, _, _, _) =>
      if pc.StoreCreate? {
        FinishWrite(s, pc, order);
      }
    case Delete(_, _, _, _) =>
      if pc.StoreDelete? {
        FinishDelete(s, pc.report, order);
      }
    case DeleteCollection(_, _, _, _) =>
      if pc.NextItem? {
        FinishLoop(s, pc.turn, order);
        assert pc.turn.items[0..] == pc.turn.items;
      }
    case _ =>
  }

  /** The uninterrupted run is a schedule of the concurrent store: moves of that one request, nothing else. */
  lemma {:induction false} FinishIsScheduled(s0: Sys, actions: seq<Action>, i: nat, order: seq<string>)
    returns (more: seq<Action>)
    requires Reachable(s0, actions) && i < |Reached(s0, actions).procs|
    requires AtItem(Reached(s0, actions).procs[i])
    requires StepWalk(Reached(s0, actions).shared.db, Reached(s0, actions).procs[i], order)
    ensures forall a :: a in more ==> a == Move(i, order)
    ensures Reachable(s0, actions + more)
    ensures var s := Reached(s0, actions);
            var (shared, response) := Finish(s.shared, s.procs[i], order);
            Reached(s0, actions + more) == Sys(shared, s.procs[i := Done(response)])
    decreases Phase(Reached(s0, actions).procs[i]), Turns(Reached(s0, actions).procs[i]),
              Rank(Reached(s0, actions).procs[i])
  {
    var s := Reached(s0, actions);
    if s.procs[i].Done? {
      more := [];
      assert actions + more == actions && s.procs[i := s.procs[i]] == s.procs;
    } else {
      Closer(s.shared, s.procs[i], order);
      var next := actions + [Move(i, order)];
      assert next[..|actions|] == actions;
      assert Reached(s0, next) == Perform(s, Move(i, order));
      var rest := FinishIsScheduled(s0, next, i, order);
      more := [Move(i, order)] + rest;
      assert actions + more == next + rest;
      var (shared, response) := Finish(s.shared, s.procs[i], order);
      assert s.procs[i := Reached(s0, next).procs[i]][i := Done(response)] == s.procs[i := Done(response)];
    }
  }

  /**
    From any reachable state, a request that has just arrived and is left alone
    ends with the response, and leaves the database and the log, of its handler.
   */
  lemma LeftAloneIsSequential(s0: Sys, actions: seq<Action>, i: nat, order: seq<string>) returns (more: seq<Action>)
    requires Reachable(s0, actions) && i < |Reached(s0, actions).procs| && Reached(s0, actions).procs[i].Start?
    requires Walk(Reached(s0, actions).shared.db, Reached(s0, actions).procs[i].q, order)
    ensures forall a :: a in more ==> a == Move(i, order)
    ensures Reachable(s0, actions + more)
    ensures var s, s' := Reached(s0, actions), Reached(s0, actions + more);
            var outcome := Handle(s.shared.db, s.procs[i].q, order);
            && State(s'.shared.db, s'.shared.log) == Apply(State(s.shared.db, s.shared.log), outcome.effect)
            && s'.procs == s.procs[i := Done(outcome.response)]
  {
    FinishIsHandle(Reached(s0, actions).shared, Reached(s0, actions).procs[i].q, order);
    more := FinishIsScheduled(s0, actions, i, order);
  }
}

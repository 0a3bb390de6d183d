/**
  Collection delete on the concurrent store: whatever interleaving has led to
  the state in which the request arrives, its steps taken in a row delete what
  they should, while other requests may be half done.
 */
module Alone {
  import opened Wrappers
  import opened Keys
  import opened Codec
  import opened InMemory
  import opened Listing
  import opened Handlers
  import opened Abstraction
  import opened Collection
  import opened Machine
  import opened Watching
  import opened Solo

  // ----- Interleaving keeps the database orderly -----

  /** What a request still has to write has a name. */
  ghost predicate PcNamed(pc: Pc) {
    match pc
    case Start(q) => Names(q)
    case StoreCreate(r, _) => r.name != ""
    case ReadVersion(r, _) => r.name != ""
    case StoreUpdate(r, _) => r.name != ""
    case StoreForced(r, _) => r.name != ""
    case _ => true
  }

  ghost predicate NamedSchedule(actions: seq<Action>) {
    forall a :: a in actions && a.Arrive? ==> Names(a.q)
  }

  lemma PcStaysNamed(s: Shared, pc: Pc, order: seq<string>)
    requires StepWalk(s.db, pc, order) && PcNamed(pc)
    ensures PcNamed(Advance(s, pc, order).1)
  {
  }

  lemma SharedStaysNamed(s: Shared, pc: Pc, order: seq<string>)
    requires StepWalk(s.db, pc, order) && PcNamed(pc) && Named(s.db)
    ensures Named(Advance(s, pc, order).0.db)
  {
    if pc.StoreCreate? || pc.StoreUpdate? || pc.StoreForced? {
      WriteStaysNamed(s.db, pc.report, pc.modified);
    }
  }

  lemma {:induction false} ReachableIsNamed(s0: Sys, actions: seq<Action>)
    requires Reachable(s0, actions) && NamedSchedule(actions)
    ensures Named(Reached(s0, actions).shared.db)
    ensures forall i :: 0 <= i < |Reached(s0, actions).procs| ==> PcNamed(Reached(s0, actions).procs[i])
  {
    if |actions| > 0 {
      LastAction(s0, actions);
      var prior := actions[..|actions| - 1];
      ReachableIsNamed(s0, prior);
      var before := Reached(s0, prior);
      match actions[|actions| - 1]
      case Arrive(_) =>
      case Move(i, order) =>
        PcStaysNamed(before.shared, before.procs[i], order);
        SharedStaysNamed(before.shared, before.procs[i], order);
      case Foreign(_) =>
    }
  }

  /**
    Under any interleaving of requests with path-segment namespaces and non-empty
    names, the database stays one whose listings are exact.
   */
  lemma ReachableIsOrderly(s0: Sys, actions: seq<Action>)
    requires Reachable(s0, actions) && LegalSchedule(actions) && NamedSchedule(actions)
    ensures Orderly(Reached(s0, actions).shared.db)
  {
    ReachableIsSound(s0, actions);
    ReachableIsSegmented(s0, actions);
    ReachableIsNamed(s0, actions);
  }

  // ----- Collection delete from there -----

  /** Request `i` has just arrived, is a collection delete that is not a dry run, and may walk as `order` says. */
  ghost predicate Collects(s: Sys, i: nat, order: seq<string>) {
    && i < |s.procs| && s.procs[i].Start? && s.procs[i].q.DeleteCollection? && !IsDryRun(s.procs[i].q.dryRun)
    && Walk(s.shared.db, s.procs[i].q, order)
  }

  /**
    Left alone from any state that interleaving can reach, whatever the selector
    and the validator, a collection delete removes exactly the entries walked over
    before the first rejected one, announces each twice, and fails exactly when
    one is rejected; if the selector's one verdict is no, nothing happens.
   */
  lemma CollectionAlone(s0: Sys, actions: seq<Action>, i: nat, order: seq<string>) returns (more: seq<Action>)
    requires Reachable(s0, actions) && LegalSchedule(actions) && NamedSchedule(actions)
    requires Collects(Reached(s0, actions), i, order)
    ensures (forall a :: a in more ==> a == Move(i, order)) && Reachable(s0, actions + more)
    ensures var s, s', q := Reached(s0, actions), Reached(s0, actions + more), Reached(s0, actions).procs[i].q;
            var gone := order[..Reach(s.shared.db, q.selector, q.validDelete, order)];
            var vals := ValuesAt(s.shared.db, order);
            && s'.shared.db == s.shared.db - (set k | k in gone)
            && s'.shared.log == s.shared.log + DeletionEvents(ReportsAt(s.shared.db, gone), true)
            && s'.procs == s.procs[i := Done(
                 if !Verdict(vals, SelectorOf(q.selector)) then Listed([])
                 else if |gone| < |order| then Failed(BadRequest(NotDeleted)) else Listed(Items(vals)))]
  {
    var s := Reached(s0, actions);
    ReachableIsOrderly(s0, actions);
    ReachableIsSegmented(s0, actions);
    CollectionOutcome(s.shared.db, s.procs[i].q, order);
    CollectionDeletes(State(s.shared.db, s.shared.log), s.procs[i].q, order);
    more := LeftAloneIsSequential(s0, actions, i, order);
  }

  lemma ReachesAll(db: Db, valid: Report -> bool, order: seq<string>)
    requires forall k :: k in order ==> k in db && valid(ReportAt(db[k]))
    ensures Reach(db, None, valid, order) == |order|
  {
    assert forall i :: 0 <= i < |order| ==> order[i] in order;
  }

  /**
    With the default selector and accepting validation it always succeeds: the
    namespace is empty afterwards, every other entry is as it was, and each deleted
    report is announced twice.
   */
  lemma CollectionAloneEmpties(s0: Sys, actions: seq<Action>, i: nat, order: seq<string>) returns (more: seq<Action>)
    requires Reachable(s0, actions) && LegalSchedule(actions) && NamedSchedule(actions)
    requires Collects(Reached(s0, actions), i, order)
    requires var s, q := Reached(s0, actions), Reached(s0, actions).procs[i].q;
             q.selector == None && forall k :: k in order ==> q.validDelete(ReportAt(s.shared.db[k]))
    ensures (forall a :: a in more ==> a == Move(i, order)) && Reachable(s0, actions + more)
    ensures var s, s', q := Reached(s0, actions), Reached(s0, actions + more), Reached(s0, actions).procs[i].q;
            && (forall k :: k in s'.shared.db <==>
                  k in s.shared.db && !(KeyForList(V1ALPHA2, q.namespace) <= k))
            && (forall k :: k in s'.shared.db ==> s'.shared.db[k] == s.shared.db[k])
            && s'.shared.log == s.shared.log + DeletionEvents(ReportsAt(s.shared.db, order), true)
            && s'.procs == s.procs[i := Done(Listed(Items(ValuesAt(s.shared.db, order))))]
  {
    var s := Reached(s0, actions);
    ReachesAll(s.shared.db, s.procs[i].q.validDelete, order);
    assert order[..|order|] == order;
    more := CollectionAlone(s0, actions, i, order);
  }
}

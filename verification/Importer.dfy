/** The importer as the program runs it: statement by statement, in one transaction. */
module Importer {
  import opened Options
  import opened Catalogue
  import opened Import
  import opened ImportStep
  import opened ImportRun
  import opened ImportReconcile
  import Writer

  /** What a statement came to. */
  datatype Execution = Done | Violation | Broken

  /** Why a run stopped: an error of the import's own, a constraint, or a database that
      did not answer. */
  datatype Fault = Stopped(error: Error) | Violated | Unavailable

  /** The handle the importer writes through. Statement n fails for no reason of the
      importer's own when `breaks(n)`; one that breaks a constraint is refused. */
  class Transaction {
    var tables: Tables
    var statements: nat
    const breaks: nat -> bool

    constructor (t: Tables, breaks: nat -> bool)
      ensures tables == t && statements == 0 && this.breaks == breaks
    {
      this.tables, this.statements, this.breaks := t, 0, breaks;
    }

    method Execute(next: Tables) returns (outcome: Execution)
      modifies this
      ensures statements == old(statements) + 1
      ensures outcome == if breaks(old(statements)) then Broken else if Constraints(next) then Done else Violation
      ensures tables == if outcome.Done? then next else old(tables)
    {
      outcome := if breaks(statements) then Broken else if Constraints(next) then Done else Violation;
      statements := statements + 1;
      if outcome.Done? { tables := next; }
    }
  }

  /** The counters a run reports. */
  class Result {
    var seen: nat
    var created: nat
    var departed: nat
    var republished: nat
    var lost: nat
    ghost var demoted: seq<nat>

    constructor ()
      ensures seen == 0 && created == 0 && departed == 0 && republished == 0 && lost == 0 && demoted == []
    {
      seen, created, departed, republished, lost, demoted := 0, 0, 0, 0, 0, [];
    }

    ghost function With(t: Tables): Progress
      reads this
    {
      Progress(t, seen, created, departed, republished, lost, demoted)
    }
  }

  function FaultOf(outcome: Execution): (fault: Option<Fault>)
    ensures fault.None? <==> outcome.Done?
  {
    match outcome case Done => None case Violation => Some(Violated) case Broken => Some(Unavailable)
  }

  /** The database is blamed only when it failed, and nothing is asked of it after that. */
  ghost predicate StopsAt(tx: Transaction, before: nat, fault: Option<Fault>)
    reads tx
  {
    && tx.statements >= before
    && (fault == Some(Unavailable) <==> tx.statements > before && tx.breaks(tx.statements - 1))
  }

  /** A step of the import did what its specification says, or stopped where it does, or
      the database failed it. It was never refused by a constraint. */
  ghost predicate Follows(fault: Option<Fault>, spec: Outcome, now: Progress) {
    match fault
    case None => spec == Ok(now)
    case Some(Stopped(error)) => spec == Abort(error)
    case Some(Violated) => false
    case Some(Unavailable) => true
  }

  class CatalogueImporter {
    const c: Config

    constructor (c: Config)
      ensures this.c == c
    {
      this.c := c;
    }

    /** Appending an event: a second one under the same key is an error. */
    method Announce(tx: Transaction, event: SlotEvent) returns (fault: Option<Fault>)
      requires Constraints(tx.tables)
      modifies tx
      ensures StopsAt(tx, old(tx.statements), fault)
      ensures Constraints(tx.tables)
      ensures fault != Some(Violated)
      ensures fault.None? ==> !Announced(old(tx.tables), event) && tx.tables == Catalogue.Announce(old(tx.tables), event)
      ensures fault.Some? && fault.value.Stopped? ==> fault == Some(Stopped(NotAnnounced)) && Announced(old(tx.tables), event)
    {
      if Announced(tx.tables, event) {
        return Some(Stopped(NotAnnounced));
      }
      AnnounceKeeps(tx.tables, event);
      var outcome := tx.Execute(Catalogue.Announce(tx.tables, event));
      fault := FaultOf(outcome);
    }

    method HandOver(tx: Transaction, result: Result, merchant: nat, previous: Option<nat>, at: int) returns (fault: Option<Fault>)
      requires Constraints(tx.tables)
      modifies tx, result
      ensures StopsAt(tx, old(tx.statements), fault)
      ensures Constraints(tx.tables)
      ensures Follows(fault, Import.HandOver(old(result.With(tx.tables)), merchant, previous, at), result.With(tx.tables))
    {
      var promoted := Promotable(tx.tables, merchant);
      match promoted {
        case None =>
          fault := None;
          if previous.Some? {
            result.lost := result.lost + 1;
            fault := Announce(tx, SlotEvent.Unpublished(merchant, previous, at));
          }
        case Some(i) =>
          PreferKeeps(tx.tables, merchant);
          var outcome := tx.Execute(Prefer(tx.tables, i));
          fault := FaultOf(outcome);
          if fault.None? {
            if previous.Some? { result.republished := result.republished + 1; }
            fault := Announce(tx, SlotEvent.Published(merchant, i, previous, at));
          }
      }
    }

    /** resolveMerchant: which retailer a report belongs to, creating it if it is new. */
    method ResolveMerchant(tx: Transaction, result: Result, r: Report) returns (fault: Option<Fault>, merchant: nat)
      requires Constraints(tx.tables)
      modifies tx, result
      ensures StopsAt(tx, old(tx.statements), fault)
      ensures Constraints(tx.tables)
      ensures Follows(fault, Settled(c, old(result.With(tx.tables)), r), result.With(tx.tables))
      ensures fault.None? ==> merchant == MerchantOf(c, old(tx.tables), r) && Belongs(c, tx.tables, r, merchant)
    {
      ResolvesTo(c, tx.tables, r);
      ghost var p := result.With(tx.tables);
      if !Resolve(c, tx.tables, r).Unresolved? { MerchantSettled(c, p, r); }
      fault, merchant := None, 0;
      match Resolve(c, tx.tables, r) {
        case Known(m) => merchant := m;
        case Unresolved(error) => fault := Some(Stopped(error));
        case Newcomer(slug) =>
          CreateKeeps(tx.tables, slug);
          merchant := |tx.tables.merchants|;
          var outcome := tx.Execute(CreateMerchant(tx.tables, slug));
          fault := FaultOf(outcome);
          if fault.None? { result.created := result.created + 1; }
      }
    }

    /** Withdraw the slot if the status forbids it, look whether the retailer has another,
        and write the route. */
    method UpsertRoute(tx: Transaction, result: Result, r: Report, at: int, merchant: nat)
      returns (fault: Option<Fault>, withdrawn: Option<nat>, published: bool)
      requires Constraints(tx.tables) && Belongs(c, tx.tables, r, merchant)
      modifies tx, result
      ensures StopsAt(tx, old(tx.statements), fault)
      ensures Constraints(tx.tables)
      ensures fault.None? || fault == Some(Unavailable)
      ensures fault.None? ==>
        && result.With(tx.tables) == Upserted(c, old(result.With(tx.tables)), at, r, merchant)
        && withdrawn == Withdrawn(c, old(tx.tables), r)
        && published == (HasPreferred(AfterWithdrawal(c, old(tx.tables), r), merchant) || IsPublished(tx.tables, c.network, r.external))
    {
      hide HasRouteAt, Constraints, HasPreferred, RowOf, FindRoute, IsPublished;
      ghost var t := tx.tables;
      WithdrawThenUpsert(c, t, at, r, merchant);
      fault, published := None, false;
      withdrawn := Withdrawn(c, tx.tables, r);
      if withdrawn.Some? {
        UnpreferKeeps(tx.tables, withdrawn.value);
        var outcome := tx.Execute(Unprefer(tx.tables, withdrawn.value));
        fault := FaultOf(outcome);
      }
      hide Withdrawn, Demotable;
      if fault.None? {
        var preferred := HasPreferred(tx.tables, merchant);
        var outcome := tx.Execute(Catalogue.UpsertRoute(tx.tables, RowOf(c, tx.tables, at, r, merchant)));
        fault := FaultOf(outcome);
        assert Rewritten(c, t, at, r, merchant) == Catalogue.UpsertRoute(AfterWithdrawal(c, t, r), RowOf(c, AfterWithdrawal(c, t, r), at, r, merchant));
        published := preferred || IsPublished(tx.tables, c.network, r.external);
        result.seen, result.demoted := result.seen + 1, Extended(result.demoted, withdrawn);
      }
    }

    method WriteRoute(tx: Transaction, result: Result, at: int, r: Report) returns (fault: Option<Fault>)
      requires Constraints(tx.tables)
      modifies tx, result
      ensures StopsAt(tx, old(tx.statements), fault)
      ensures Constraints(tx.tables)
      ensures Follows(fault, Import.WriteRoute(c, old(result.With(tx.tables)), at, r), result.With(tx.tables))
    {
      hide Constraints, MerchantOf, Settled, Upserted, AfterWithdrawal, Withdrawn, IsPublished, HasPreferred, Belongs;
      var merchant;
      fault, merchant := ResolveMerchant(tx, result, r);
      if fault.None? {
        var withdrawn, published;
        fault, withdrawn, published := UpsertRoute(tx, result, r, at, merchant);
        if fault.None? && !published {
          fault := HandOver(tx, result, merchant, withdrawn, at);
        }
      }
    }

    /** Everything the answer holds, in order, until something stops it. */
    method WriteAll(tx: Transaction, result: Result, at: int, answer: seq<Report>) returns (fault: Option<Fault>)
      requires Constraints(tx.tables)
      modifies tx, result
      ensures StopsAt(tx, old(tx.statements), fault)
      ensures Constraints(tx.tables)
      ensures Follows(fault, Import.WriteAll(c, old(result.With(tx.tables)), at, answer), result.With(tx.tables))
    {
      hide Constraints, Import.WriteRoute;
      ghost var p := result.With(tx.tables);
      fault := None;
      var n := 0;
      while n < |answer| && fault.None?
        invariant n <= |answer|
        invariant StopsAt(tx, old(tx.statements), fault)
        invariant Constraints(tx.tables)
        invariant Follows(fault, Import.WriteAll(c, p, at, answer[..n]), result.With(tx.tables))
      {
        assert answer[..n + 1][..n] == answer[..n];
        fault := WriteRoute(tx, result, at, answer[n]);
        n := n + 1;
      }
      if fault.None? { assert answer[..n] == answer; } else if fault.value.Stopped? { StopsEarly(c, p, at, answer, n); }
    }

    /** Hand over from each departed route, in order, until something stops it. */
    method HandOverAll(tx: Transaction, result: Result, departed: seq<nat>, at: int) returns (fault: Option<Fault>)
      requires Constraints(tx.tables) && forall k :: 0 <= k < |departed| ==> departed[k] < |tx.tables.routes|
      modifies tx, result
      ensures StopsAt(tx, old(tx.statements), fault)
      ensures Constraints(tx.tables)
      ensures Follows(fault, Import.HandOverAll(old(result.With(tx.tables)), departed, at), result.With(tx.tables))
    {
      hide Constraints, Import.HandOver;
      ghost var p := result.With(tx.tables);
      var routes := tx.tables.routes;
      fault := None;
      var n := 0;
      while n < |departed| && fault.None?
        invariant n <= |departed|
        invariant StopsAt(tx, old(tx.statements), fault)
        invariant Constraints(tx.tables)
        invariant Follows(fault, Import.HandOverAll(p, departed[..n], at), result.With(tx.tables))
      {
        assert departed[..n + 1][..n] == departed[..n];
        fault := HandOver(tx, result, routes[departed[n]].merchant, Some(departed[n]), at);
        n := n + 1;
      }
      if fault.None? { assert departed[..n] == departed; } else if fault.value.Stopped? { HandOverStopsEarly(p, departed, at, n); }
    }

    /** Withdraw and mark what a complete answer left out, and hand over. */
    method Reconcile(tx: Transaction, result: Result, at: int) returns (fault: Option<Fault>)
      requires Constraints(tx.tables) && result.departed == 0
      modifies tx, result
      ensures StopsAt(tx, old(tx.statements), fault)
      ensures Constraints(tx.tables)
      ensures Follows(fault, Import.Reconcile(c, old(result.With(tx.tables)), at), result.With(tx.tables))
    {
      hide Constraints, Import.HandOverAll;
      ghost var p := result.With(tx.tables);
      DemoteNotSeenKeeps(tx.tables, c.network, at);
      DepartingDoes(c, p, at);
      var demoted := DemotedNotSeen(tx.tables.routes, c.network, at);
      var departed := DepartingCount(tx.tables.routes, c.network, at);
      var outcome := tx.Execute(DemoteNotSeen(tx.tables, c.network, at));
      fault := FaultOf(outcome);
      if fault.None? {
        outcome := tx.Execute(MarkNotSeen(tx.tables, c.network, at));
        fault := FaultOf(outcome);
        if fault.None? {
          result.departed, result.demoted := departed, result.demoted + demoted;
          assert result.With(tx.tables) == Departing(c, p, at);
          fault := HandOverAll(tx, result, demoted, at);
        }
      }
    }

    /** One run over what the network answered; `complete` is whether it ended. */
    method Run(tx: Transaction, at: int, answer: seq<Report>, complete: bool)
      returns (fault: Option<Fault>, result: Result, publishingNothing: set<nat>)
      requires Constraints(tx.tables)
      modifies tx
      ensures fresh(result)
      ensures StopsAt(tx, old(tx.statements), fault)
      ensures Constraints(tx.tables)
      ensures Follows(fault, Import.Run(c, old(tx.tables), at, answer, complete), result.With(tx.tables))
      ensures fault.None? ==> publishingNothing == RetailersPublishingNothing(tx.tables)
      // by name: those shown to readers, with a route that is active and attributable, and none published
      ensures fault.None? ==> forall m: nat ::
        m in publishingNothing <==>
          && m < |tx.tables.merchants| && tx.tables.merchants[m].shown
          && (exists i :: 0 <= i < |tx.tables.routes| && tx.tables.routes[i].merchant == m && tx.tables.routes[i].status == Active && tx.tables.routes[i].canAttribute)
          && (forall i :: 0 <= i < |tx.tables.routes| && tx.tables.routes[i].merchant == m ==> !tx.tables.routes[i].preferred)
    {
      hide Constraints, Import.WriteAll, Import.Reconcile;
      result := new Result();
      publishingNothing := {};
      ghost var p := result.With(tx.tables);
      assert p == Start(tx.tables);
      fault := WriteAll(tx, result, at, answer);
      if fault.None? && !complete {
        fault := Some(Stopped(Incomplete));
      } else if fault.None? {
        assert result.departed == 0 by { NoneDepartedYet(c, p, at, answer); }
        fault := Reconcile(tx, result, at);
        if fault.None? { publishingNothing := RetailersPublishingNothing(tx.tables); }
      }
    }
  }

  /** The report's own retailer, if its id is known, or one with no route here. */
  predicate Belongs(c: Config, t: Tables, r: Report, merchant: nat) {
    && merchant < |t.merchants|
    && match FindRoute(t.routes, c.network, r.external)
       case Some(i) => t.routes[i].merchant == merchant
       case None => !HasRouteAt(t, merchant, c.network)
  }

  lemma {:induction false} HandOverStopsEarly(p: Progress, departed: seq<nat>, at: int, n: nat)
    requires n <= |departed| && forall k :: 0 <= k < |departed| ==> departed[k] < |p.tables.routes|
    requires Import.HandOverAll(p, departed[..n], at).Abort?
    ensures Import.HandOverAll(p, departed, at) == Import.HandOverAll(p, departed[..n], at)
    decreases |departed|
  {
    if n == |departed| {
      assert departed[..n] == departed;
    } else {
      assert departed[..|departed| - 1][..n] == departed[..n];
      HandOverStopsEarly(p, departed[..|departed| - 1], at, n);
    }
  }

  lemma {:induction false} NoneDepartedYet(c: Config, p: Progress, at: int, answer: seq<Report>)
    ensures var outcome := Import.WriteAll(c, p, at, answer);
      outcome.Ok? ==> outcome.p.departed == p.departed
  {
    hide Import.WriteRoute;
    if |answer| > 0 {
      var last := |answer| - 1;
      NoneDepartedYet(c, p, at, answer[..last]);
      var before := Import.WriteAll(c, p, at, answer[..last]);
      if before.Ok? { NoneDeparts(c, before.p, at, answer[last]); }
    }
  }

  lemma NoneDeparts(c: Config, p: Progress, at: int, r: Report)
    ensures var outcome := Import.WriteRoute(c, p, at, r);
      outcome.Ok? ==> outcome.p.departed == p.departed
  {
    hide Resolve, MerchantOf, Rewritten, AfterWithdrawal, Withdrawn, HasPreferred, IsPublished, Promotable, Announced;
  }

  /** The import as the schedule runs it (internal/cashback/catalogue/schedule.go). */
  class Imports {
    var stored: Tables
    const importer: CatalogueImporter

    constructor (t: Tables, importer: CatalogueImporter)
      ensures stored == t && this.importer == importer
    {
      stored, this.importer := t, importer;
    }

    /** One transaction: the tables end as a whole run leaves them, or as they were. A
        commit whose acknowledgement is lost is reported as a failure and has landed. */
    method Once(at: int, answer: seq<Report>, complete: bool, begins: bool, breaks: nat -> bool, commit: Writer.CommitFate)
      returns (ok: bool, result: Option<Result>)
      requires Constraints(stored)
      modifies this`stored
      ensures Constraints(stored)
      ensures var run := Import.Run(importer.c, old(stored), at, answer, complete);
        && (stored == old(stored) || (run.Ok? && stored == run.p.tables))
        && (ok ==> run.Ok? && stored == run.p.tables && result.Some? && result.value.With(stored) == run.p)
        && (!ok && !commit.Unheard? ==> stored == old(stored))
        && (begins && commit.Landed? && (forall n: nat :: !breaks(n)) ==> ok == run.Ok?)
    {
      hide Constraints, Import.Run;
      ok, result := false, None;
      if begins {
        var tx := new Transaction(stored, breaks);
        var fault, counts, publishingNothing := importer.Run(tx, at, answer, complete);
        if fault.None? {
          if !commit.Refused? { stored := tx.tables; }
          if commit.Landed? { ok, result := true, Some(counts); }
        }
      }
    }
  }
}

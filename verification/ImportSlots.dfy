/** Slots and events, one for one: what is announced in a run is what moved. */
module ImportSlots {
  import opened Options
  import opened Catalogue
  import opened Import
  import opened ImportStep
  import opened ImportRun
  import opened ImportReconcile
  import opened ImportComplete
  import opened ImportTheorems
  import opened ImportConflict

  /** A route of `t` has taken the slot it did not have. */
  ghost predicate Gained(t: Tables, t': Tables, i: nat) {
    i < |t.routes| && i < |t'.routes| && !t.routes[i].preferred && t'.routes[i].preferred
  }

  /** One step announces a publication exactly of the route that gained the slot in it. */
  ghost predicate Gains(t: Tables, t': Tables) {
    && |t.routes| <= |t'.routes|
    && (t'.events == t.events || (|t'.events| == |t.events| + 1 && t'.events[..|t.events|] == t.events))
    && (|t'.events| > |t.events| && t'.events[|t.events|].Published? ==> Gained(t, t', t'.events[|t.events|].route))
    && (forall i: nat :: Gained(t, t', i) ==>
          |t'.events| > |t.events| && t'.events[|t.events|].Published? && t'.events[|t.events|].route == i)
  }

  lemma HandOverGains(p: Progress, merchant: nat, previous: Option<nat>, at: int)
    requires !HasPreferred(p.tables, merchant)
    ensures var o := HandOver(p, merchant, previous, at);
      o.Ok? ==> Gains(p.tables, o.p.tables) && |o.p.tables.routes| == |p.tables.routes|
  {
    hide Announced;
  }

  lemma WriteGains(c: Config, p: Progress, at: int, r: Report)
    requires Constraints(p.tables) && !Resolve(c, p.tables, r).Unresolved?
    ensures var o := WriteRoute(c, p, at, r); o.Ok? ==> Gains(p.tables, o.p.tables)
  {
    MerchantSettled(c, p, r);
    var p1, m := Settled(c, p, r).p, MerchantOf(c, p.tables, r);
    WithdrawThenUpsert(c, p1.tables, at, r, m);
    NewRowTakesSlot(c, p1, at, r, m);
    var p3 := Upserted(c, p1, at, r, m);
    UpsertedCounts(c, p1, at, r, m);
    var k := FindRoute(p3.tables.routes, c.network, r.external).value;
    assert p1.tables.routes == p.tables.routes && p1.tables.events == p.tables.events;
    hide Constraints, Resolve, HasRouteAt, Upserted, Rewritten, AfterWithdrawal, Demotable, Withdrawn, HandOver, Settled, MerchantOf, FindRoute;
    if !HasPreferred(p3.tables, m) {
      HandOverGains(p3, m, Withdrawn(c, p1.tables, r), at);
      var o := HandOver(p3, m, Withdrawn(c, p1.tables, r), at);
      if o.Ok? {
        HandOverMoves(p3, m, Withdrawn(c, p1.tables, r), at);
        WrittenGains(c, p1.tables, p3.tables, o.p.tables, m, at, r, k);
        hide Written, SlotsOf;
        SameStart(p.tables, p1.tables, o.p.tables);
      }
    } else {
      WrittenGainsNothing(c, p1.tables, p3.tables, m, at, r, k);
      hide Written;
      SameStart(p.tables, p1.tables, p3.tables);
    }
  }

  lemma SameStart(t: Tables, t1: Tables, t': Tables)
    requires t.routes == t1.routes && t.events == t1.events && Gains(t1, t')
    ensures Gains(t, t')
  {
    assert forall i: nat :: Gained(t, t', i) <==> Gained(t1, t', i);
  }

  /** A new route that can be published leaves its retailer publishing. */
  lemma NewRowTakesSlot(c: Config, p: Progress, at: int, r: Report, m: nat)
    requires Constraints(p.tables) && m < |p.tables.merchants|
    requires match FindRoute(p.tables.routes, c.network, r.external)
      case Some(i) => p.tables.routes[i].merchant == m
      case None => !HasRouteAt(p.tables, m, c.network)
    ensures var t := Upserted(c, p, at, r, m).tables;
      FindRoute(p.tables.routes, c.network, r.external).None? && r.status == Active ==> HasPreferred(t, m)
    ensures var t := Upserted(c, p, at, r, m).tables;
      FindRoute(t.routes, c.network, r.external).Some?
      && (FindRoute(p.tables.routes, c.network, r.external).None? <==> FindRoute(t.routes, c.network, r.external).value >= |p.tables.routes|)
  {
    match FindRoute(p.tables.routes, c.network, r.external) {
      case Some(i) => RewritesRoute(c, p.tables, at, r, i);
      case None =>
        AddsRoute(c, p.tables, at, r, m);
        if r.status == Active { NewRow(c, p.tables, at, r, m); }
    }
    hide Constraints, HasRouteAt;
  }

  lemma NewRow(c: Config, t: Tables, at: int, r: Report, m: nat)
    requires FindRoute(t.routes, c.network, r.external).None? && r.status == Active
    ensures HasPreferred(Rewritten(c, t, at, r, m), m)
  {
    var t' := Rewritten(c, t, at, r, m);
    if HasPreferred(t, m) {
      var j :| 0 <= j < |t.routes| && t.routes[j].merchant == m && t.routes[j].preferred;
      assert t'.routes[j].preferred;
    } else {
      assert t'.routes[|t.routes|].preferred;
    }
  }

  /** A hand-over's own tables: slots of one retailer move, from one that has none. */
  ghost predicate SlotsOf(t3: Tables, t': Tables, m: nat) {
    && |t'.routes| == |t3.routes| && !HasPreferred(t3, m)
    && (forall i :: 0 <= i < |t3.routes| ==> SlotOnly(t3.routes[i], t'.routes[i]))
    && (forall i: nat :: Gained(t3, t', i) ==> t3.routes[i].merchant == m && t3.routes[i].Publishable())
  }

  lemma HandOverMoves(p: Progress, m: nat, previous: Option<nat>, at: int)
    requires !HasPreferred(p.tables, m)
    ensures var o := HandOver(p, m, previous, at); o.Ok? ==> SlotsOf(p.tables, o.p.tables, m)
  {
    hide Announced;
  }

  lemma WrittenGains(c: Config, t: Tables, t3: Tables, t': Tables, m: nat, at: int, r: Report, k: nat)
    requires Written(c, t, t3, m, at, r, k) && Gains(t3, t') && SlotsOf(t3, t', m)
    requires k >= |t.routes| && r.status == Active ==> HasPreferred(t3, m)
    ensures Gains(t, t')
  {
    hide Constraints;
    assert k >= |t.routes| ==> !t3.routes[k].Publishable();
    forall i: nat ensures Gained(t, t', i) <==> Gained(t3, t', i) {
      if i < |t.routes| && i != k { assert t3.routes[i] == t.routes[i]; }
      if i == k && i < |t.routes| && t.routes[k].preferred && !t3.routes[k].preferred {
        assert t3.routes[k].status != Active && SlotOnly(t3.routes[k], t'.routes[k]);
      }
    }
  }

  lemma WrittenGainsNothing(c: Config, t: Tables, t3: Tables, m: nat, at: int, r: Report, k: nat)
    requires Written(c, t, t3, m, at, r, k)
    ensures Gains(t, t3)
  {
    hide Constraints;
    forall i: nat ensures !Gained(t, t3, i) {
      if i < |t.routes| && i != k { assert t3.routes[i] == t.routes[i]; }
    }
  }

  // ---- over a run ----

  ghost predicate PublishedIn(news: seq<SlotEvent>, i: nat) {
    exists n :: 0 <= n < |news| && news[n].Published? && news[n].route == i
  }

  /** So far every announced publication is of a route found at the start without the slot,
      and every route found without it that has it now has been announced. */
  ghost predicate GainsSoFar(t0: Tables, t: Tables) {
    && t0.events <= t.events && |t0.routes| <= |t.routes|
    && (forall n :: 0 <= n < |News(t0, t)| && News(t0, t)[n].Published? ==>
          News(t0, t)[n].route < |t0.routes| && !t0.routes[News(t0, t)[n].route].preferred)
    && (forall i: nat :: i < |t0.routes| && Gained(t0, t, i) ==> PublishedIn(News(t0, t), i))
  }

  /** Nothing that lost the slot in this run has it again, and nothing new gains it. */
  ghost predicate NoReturns(t0: Tables, t: Tables, t': Tables) {
    forall i: nat :: Gained(t, t', i) ==> i < |t0.routes| && !t0.routes[i].preferred
  }

  lemma GainsNext(t0: Tables, t: Tables, t': Tables)
    requires GainsSoFar(t0, t) && Gains(t, t') && NoReturns(t0, t, t')
    ensures GainsSoFar(t0, t')
  {
    var news, more := News(t0, t), News(t0, t');
    assert more == news || (|more| == |news| + 1 && more[..|news|] == news && more[|news|] == t'.events[|t.events|]);
    assert forall n :: 0 <= n < |news| ==> more[n] == news[n];
    forall i: nat | i < |t0.routes| && Gained(t0, t', i) ensures PublishedIn(more, i) {
      if Gained(t0, t, i) {
        var n :| 0 <= n < |news| && news[n].Published? && news[n].route == i;
        assert more[n].route == i;
      } else {
        assert Gained(t, t', i);
        assert more[|news|].route == i;
      }
    }
  }

  /** A report's retailer was as it had been found, so nothing returns to it. */
  lemma WriteReturnsNothing(c: Config, t0: Tables, p: Progress, at: int, answer: seq<Report>, r: Report)
    requires NewInstant(c, t0, at) && Midway(c, t0, p, at, answer) && !Mentioned(answer, r.external)
    requires WriteRoute(c, p, at, r).Ok?
    ensures NoReturns(t0, p.tables, WriteRoute(c, p, at, r).p.tables)
  {
    hide Constraints, Resolve, MerchantOf, WriteRoute, SlotsSoFar, EventsSoFar, DemotionsSoFar, Seen, NewInstant, Mentioned, FindRoute, RoutesSoFar;
    WrittenNext(c, t0, p, at, answer, r);
    NotYetSeen(c, t0, p.tables, at, answer, r);
    WriteRouteDoes(c, p, at, r);
    AllStamped(c, t0, p.tables, at, answer);
    var t, t', m := p.tables, WriteRoute(c, p, at, r).p.tables, MerchantOf(c, p.tables, r);
    var k := FindRoute(t'.routes, c.network, r.external).value;
    UnseenAsFound(c, t0, t, t', at, r, m, k);
  }

  lemma UnseenAsFound(c: Config, t0: Tables, t: Tables, t': Tables, at: int, r: Report, m: nat, k: nat)
    requires SlotsSoFar(c, t0, t, at) && !Seen(c, t, at, m) && WroteTables(c, t, t', at, r, m, k)
    requires forall i :: |t0.routes| <= i < |t.routes| ==> t.routes[i].network == c.network && t.routes[i].retrievedAt == at
    ensures NoReturns(t0, t, t')
  {
    forall i: nat | Gained(t, t', i) ensures i < |t0.routes| && !t0.routes[i].preferred {
      if t.routes[i].merchant != m { RouteElsewhere(c, t, t', at, r, m, k, i); }
      assert t.routes[i].merchant == m;
    }
  }

  lemma {:induction false} WriteAllGains(c: Config, t0: Tables, at: int, answer: seq<Report>)
    requires Constraints(t0) && NewInstant(c, t0, at) && Distinct(answer) && WriteAll(c, Start(t0), at, answer).Ok?
    ensures GainsSoFar(t0, WriteAll(c, Start(t0), at, answer).p.tables)
  {
    hide Constraints, NewInstant, Resolve, WriteRoute, Midway, GainsSoFar, Gains, NoReturns;
    if |answer| == 0 {
      GainsStart(t0);
    } else {
      var before, r := answer[..|answer| - 1], answer[|answer| - 1];
      WriteAllGains(c, t0, at, before);
      WriteAllMidway(c, t0, at, before);
      assert !Mentioned(before, r.external);
      var p := WriteAll(c, Start(t0), at, before).p;
      MidwayHas(c, t0, p, at, before);
      WrittenNext(c, t0, p, at, before, r);
      WriteGains(c, p, at, r);
      WriteReturnsNothing(c, t0, p, at, before, r);
      GainsNext(t0, p.tables, WriteRoute(c, p, at, r).p.tables);
    }
  }

  lemma GainsStart(t0: Tables)
    ensures GainsSoFar(t0, t0)
  {
    assert News(t0, t0) == [];
  }

  /** Marking the departed gives nobody the slot. */
  lemma GainsDepart(c: Config, t0: Tables, p: Progress, at: int)
    requires GainsSoFar(t0, p.tables) && Constraints(p.tables)
    ensures GainsSoFar(t0, Departing(c, p, at).tables)
  {
    DepartingDoes(c, p, at);
    var p1 := Departing(c, p, at);
    hide Departing, Constraints;
    assert News(t0, p1.tables) == News(t0, p.tables);
    assert forall i: nat :: Gained(t0, p1.tables, i) ==> Gained(t0, p.tables, i);
  }

  /** Handing over from the departed: each announces the route that gained the slot. */
  lemma {:induction false} HandOverAllGains(c: Config, t0: Tables, p: Progress, departed: seq<nat>, at: int, touched: iset<nat>)
    requires Constraints(p.tables) && NewInstant(c, t0, at) && EventsSoFar(t0, p, at, touched) && GainsSoFar(t0, p.tables)
    requires Vacant(p.tables, departed) && (forall k :: 0 <= k < |departed| ==> p.tables.routes[departed[k]].merchant !in touched)
    requires forall k, i: nat :: 0 <= k < |departed| && i < |p.tables.routes| ==> Returnless(t0, p.tables, p.tables.routes[departed[k]].merchant, i)
    ensures HandOverAll(p, departed, at).Ok? && GainsSoFar(t0, HandOverAll(p, departed, at).p.tables)
  {
    hide Constraints, NewInstant, HandOver, EventsSoFar, GainsSoFar, Returnless;
    HandOverAllDoes(c, t0, p, departed, at, touched);
    if |departed| > 0 {
      var before, last := departed[..|departed| - 1], departed[|departed| - 1];
      assert departed == before + [last];
      HandOverAllGains(c, t0, p, before, at, touched);
      HandOverAllDoes(c, t0, p, before, at, touched);
      var q, m := HandOverAll(p, before, at).p, p.tables.routes[last].merchant;
      Unreached(p.tables, before, last);
      StillVacant(p.tables, q.tables, RetailersOf(p.tables.routes, before), m);
      hide Vacant, RetailersOf, HasPreferred;
      HandOverGains(q, m, Some(last), at);
      HandOverMoves(q, m, Some(last), at);
      var q' := HandOver(q, m, Some(last), at).p;
      assert forall i: nat :: i < |p.tables.routes| ==> Returnless(t0, p.tables, m, i) by { assert departed[|departed| - 1] == last; }
      LaterReturnsNothing(t0, p.tables, q.tables, q'.tables, RetailersOf(p.tables.routes, before), m);
      GainsNext(t0, q.tables, q'.tables);
    }
  }

  /** A publishable route of the retailer was found, and found without the slot. */
  ghost predicate Returnless(t0: Tables, t: Tables, m: nat, i: nat)
    requires i < |t.routes|
  {
    t.routes[i].merchant == m && t.routes[i].Publishable() ==> i < |t0.routes| && !t0.routes[i].preferred
  }

  lemma LaterReturnsNothing(t0: Tables, t: Tables, q: Tables, q': Tables, reached: iset<nat>, m: nat)
    requires SlotsMoved(t, q, reached) && SlotsOf(q, q', m)
    requires forall i: nat :: i < |t.routes| ==> Returnless(t0, t, m, i)
    ensures NoReturns(t0, q, q')
  {
    forall i: nat | Gained(q, q', i) ensures i < |t0.routes| && !t0.routes[i].preferred {
      assert SlotOnly(t.routes[i], q.routes[i]);
      assert Returnless(t0, t, m, i);
    }
  }

  /** A retailer the reconciliation withdraws from had its slot on the departing route, so
      nothing else of it had. */
  lemma DepartedReturnless(c: Config, t0: Tables, p: Progress, t1: Tables, at: int, answer: seq<Report>, d: nat, i: nat)
    requires Constraints(t0) && Midway(c, t0, p, at, answer) && |t1.routes| == |p.tables.routes|
    requires forall j :: 0 <= j < |p.tables.routes| ==> t1.routes[j] == Left(c, p.tables.routes[j], at)
    requires d < |t1.routes| && NotSeen(p.tables.routes[d], c.network, at) && p.tables.routes[d].preferred && i < |t1.routes|
    ensures Returnless(t0, t1, t1.routes[d].merchant, i)
  {
    OneIsVacant(c, p.tables, t1, at, d);
    AllStamped(c, t0, p.tables, at, answer);
    assert OnePreferred(t0);
    hide Constraints, RoutesSoFar, EventsSoFar, DemotionsSoFar, HasPreferred;
    if t1.routes[i].merchant == t1.routes[d].merchant && t1.routes[i].Publishable() {
      SeenAt(c, p.tables, at, i);
      SeenAt(c, p.tables, at, d);
      assert p.tables.routes[i] == t0.routes[i] && p.tables.routes[d] == t0.routes[d];
    }
  }

  lemma SeenAt(c: Config, t: Tables, at: int, i: nat)
    requires i < |t.routes|
    ensures t.routes[i].network == c.network && t.routes[i].retrievedAt == at ==> Seen(c, t, at, t.routes[i].merchant)
  {
  }

  lemma ReconcileGains(c: Config, t0: Tables, p: Progress, at: int, answer: seq<Report>)
    requires Constraints(t0) && NewInstant(c, t0, at) && Midway(c, t0, p, at, answer) && GainsSoFar(t0, p.tables)
    ensures Reconcile(c, p, at).Ok? && GainsSoFar(t0, Reconcile(c, p, at).p.tables)
  {
    var p1, d := Departing(c, p, at), DemotedNotSeen(p.tables.routes, c.network, at);
    DepartingDoes(c, p, at);
    GainsDepart(c, t0, p, at);
    DepartedAreVacant(c, p.tables, p1.tables, at);
    EventsDepart(c, t0, p, p1, at);
    assert forall k :: 0 <= k < |d| ==> d[k] in d;
    hide Departing, GainsSoFar, EventsSoFar, Vacant, Seen, Returnless, Constraints, NewInstant;
    forall k, i: nat | 0 <= k < |d| && i < |p1.tables.routes| ensures Returnless(t0, p1.tables, p1.tables.routes[d[k]].merchant, i) {
      DepartedReturnless(c, t0, p, p1.tables, at, answer, d[k], i);
    }
    HandOverAllGains(c, t0, p1, d, at, Touched(c, p.tables, at));
    hide HandOverAll;
  }

  /** Slots and events are one for one. A route that was there at the start and has gained
      the slot by the end has its publication announced in the run, exactly; and no
      publication is announced of any other route, so that a new retailer's first route
      takes the slot without one. */
  lemma PublicationsAnnounced(c: Config, t: Tables, at: int, answer: seq<Report>)
    requires Constraints(t) && NewInstant(c, t, at) && Distinct(answer) && Run(c, t, at, answer, true).Ok?
    ensures var q := Run(c, t, at, answer, true).p.tables;
      && t.events <= q.events && |t.routes| <= |q.routes|
      && (forall i: nat :: i < |t.routes| ==> (PublishedIn(News(t, q), i) <==> !t.routes[i].preferred && q.routes[i].preferred))
      && (forall i: nat :: PublishedIn(News(t, q), i) ==> i < |t.routes|)
  {
    hide Constraints, NewInstant, Midway, WriteAll, Reconcile, EventTrue;
    WriteAllMidway(c, t, at, answer);
    WriteAllGains(c, t, at, answer);
    ReconcileGains(c, t, WriteAll(c, Start(t), at, answer).p, at, answer);
    HandOversAccounted(c, t, at, answer);
    var q := Run(c, t, at, answer, true).p.tables;
    hide Run, Named, Republications, Losses;
    forall i: nat | PublishedIn(News(t, q), i) ensures i < |t.routes| && !t.routes[i].preferred && q.routes[i].preferred {
      var n :| 0 <= n < |News(t, q)| && News(t, q)[n].Published? && News(t, q)[n].route == i;
      assert EventTrue(q, News(t, q)[n]);
      PublishedIsPreferred(q, News(t, q)[n]);
    }
  }

  lemma PublishedIsPreferred(t: Tables, e: SlotEvent)
    requires EventTrue(t, e) && e.Published?
    ensures e.route < |t.routes| && t.routes[e.route].preferred
  {
  }
}

/** What a run over a complete answer leaves, put together from its parts. */
module ImportComplete {
  import opened Options
  import opened Catalogue
  import opened Import
  import opened ImportStep
  import opened ImportRun
  import opened ImportReconcile

  ghost const Anyone: iset<nat> := iset m: nat | true

  /** What a run over a complete answer leaves. */
  ghost predicate Complete(c: Config, t0: Tables, q: Progress, at: int, answer: seq<Report>) {
    && Constraints(q.tables)
    && RoutesAfter(c, t0, q.tables, at, answer)
    && (forall m: nat :: Seen(c, q.tables, at, m) || Publishing(t0, m) ==> Publishing(q.tables, m))
    && EventsSoFar(t0, q, at, Anyone) && DemotionsSoFar(t0, q) && q.demoted == Named(News(t0, q.tables))
    && q.created == |q.tables.merchants| - |t0.merchants| && q.seen == |answer|
    && q.departed == |GoneFrom(c, t0, at, answer)|
  }

  /** The routes an answer leaves out that had not left already. */
  function GoneFrom(c: Config, t0: Tables, at: int, answer: seq<Report>): set<nat> {
    set i | 0 <= i < |t0.routes| && !Stamped(c, t0.routes[i], answer) && NotSeen(t0.routes[i], c.network, at)
  }

  function DepartingIds(routes: seq<Route>, network: string, started: int): set<nat> {
    set i | 0 <= i < |routes| && NotSeen(routes[i], network, started)
  }

  lemma {:induction false} CountsDeparting(routes: seq<Route>, network: string, started: int)
    ensures DepartingCount(routes, network, started) == |DepartingIds(routes, network, started)|
  {
    hide NotSeen;
    if |routes| > 0 {
      var last: nat := |routes| - 1;
      var before := DepartingIds(routes[..last], network, started);
      CountsDeparting(routes[..last], network, started);
      assert last !in before;
      assert DepartingIds(routes, network, started) == if NotSeen(routes[last], network, started) then before + {last} else before;
    }
  }

  lemma GoneAre(c: Config, t0: Tables, t: Tables, at: int, answer: seq<Report>)
    requires RoutesSoFar(c, t0, t, at, answer)
    ensures DepartingCount(t.routes, c.network, at) == |GoneFrom(c, t0, at, answer)|
  {
    CountsDeparting(t.routes, c.network, at);
    hide Mentioned;
    forall i: nat
      ensures i in DepartingIds(t.routes, c.network, at) <==> i in GoneFrom(c, t0, at, answer)
    {
      if i < |t0.routes| {
        assert SameIdentity(t0.routes[i], t.routes[i]);
        assert Stamped(c, t0.routes[i], answer) == Stamped(c, t.routes[i], answer);
      } else if i < |t.routes| {
        assert Stamped(c, t.routes[i], answer);
      }
    }
    assert DepartingIds(t.routes, c.network, at) == GoneFrom(c, t0, at, answer);
  }

  lemma AnyoneWill(t0: Tables, p: Progress, at: int, touched: iset<nat>)
    requires EventsSoFar(t0, p, at, touched)
    ensures EventsSoFar(t0, p, at, Anyone)
  {
  }

  lemma ReconcileDoes(c: Config, t0: Tables, p: Progress, at: int, answer: seq<Report>)
    requires NewInstant(c, t0, at) && Midway(c, t0, p, at, answer)
    ensures Reconcile(c, p, at).Ok? && Complete(c, t0, Reconcile(c, p, at).p, at, answer)
  {
    var t, p1, d := p.tables, Departing(c, p, at), DemotedNotSeen(p.tables.routes, c.network, at);
    DepartingDoes(c, p, at);
    DepartedAreVacant(c, t, p1.tables, at);
    GoneAre(c, t0, t, at, answer);
    assert p1.demoted == p.demoted + d && p1.departed == DepartingCount(t.routes, c.network, at);
    EventsDepart(c, t0, p, p1, at);
    hide Constraints, NewInstant, Seen, RoutesSoFar, Departing;
    var touched := Touched(c, t, at);
    HandOverAllDoes(c, t0, p1, d, at, touched);
    hide HandOverAll;
    var q := HandOverAll(p1, d, at).p;
    assert Reconcile(c, p, at) == HandOverAll(p1, d, at);
    CompleteParts(c, t0, p, p1, q, at, answer);
  }

  /** The shape of the reconciliation, before the slots are handed over and after. */
  ghost predicate Reconciled(c: Config, t: Tables, t1: Tables, t2: Tables, at: int) {
    && |t1.routes| == |t.routes| && t1.merchants == t.merchants
    && (forall i :: 0 <= i < |t.routes| ==> t1.routes[i] == Left(c, t.routes[i], at))
    && SlotsMoved(t1, t2, RetailersOf(t1.routes, DemotedNotSeen(t.routes, c.network, at)))
    && (forall m <- RetailersOf(t1.routes, DemotedNotSeen(t.routes, c.network, at)) :: Publishing(t2, m))
  }

  lemma CompleteParts(c: Config, t0: Tables, p: Progress, p1: Progress, q: Progress, at: int, answer: seq<Report>)
    requires Midway(c, t0, p, at, answer) && |p1.tables.routes| == |p.tables.routes|
    requires p1 == p.(tables := p.tables.(routes := p1.tables.routes), demoted := p1.demoted, departed := p1.departed)
    requires p1.demoted == p.demoted + DemotedNotSeen(p.tables.routes, c.network, at) && p1.departed == |GoneFrom(c, t0, at, answer)|
    requires forall i :: 0 <= i < |p.tables.routes| ==> p1.tables.routes[i] == Left(c, p.tables.routes[i], at)
    requires HandedOver(t0, p1, q, DemotedNotSeen(p.tables.routes, c.network, at), at, Touched(c, p.tables, at))
    ensures Complete(c, t0, q, at, answer)
  {
    var t, t1, d := p.tables, p1.tables, DemotedNotSeen(p.tables.routes, c.network, at);
    hide Constraints, Seen, Publishing, HadDeparted, SameIdentity, RoutesSoFar, RoutesAfter, SlotsSoFar, DemotionsSoFar, SlotsMoved, Named;
    assert Reconciled(c, t, t1, q.tables, at);
    assert News(t0, t1) == News(t0, t);
    CompleteRoutes(c, t0, p, t1, q.tables, at, answer);
    CompleteSlots(c, t0, p, t1, q.tables, at, answer);
    CompleteDemotions(c, t0, p, t1, q, at, answer);
    AnyoneWill(t0, q, at, Touched(c, t, at) + RetailersOf(t1.routes, d));
  }

  lemma CompleteRoutes(c: Config, t0: Tables, p: Progress, t1: Tables, t2: Tables, at: int, answer: seq<Report>)
    requires Midway(c, t0, p, at, answer) && Reconciled(c, p.tables, t1, t2, at)
    ensures RoutesAfter(c, t0, t2, at, answer) && |t0.merchants| <= |t2.merchants| == |p.tables.merchants|
  {
    hide Constraints, RoutesSoFar, SlotsSoFar, DemotionsSoFar, EventsSoFar, Named;
    RoutesDepart(c, t0, p.tables, t1, t2, at, answer, RetailersOf(t1.routes, DemotedNotSeen(p.tables.routes, c.network, at)));
  }

  lemma CompleteSlots(c: Config, t0: Tables, p: Progress, t1: Tables, t2: Tables, at: int, answer: seq<Report>)
    requires Midway(c, t0, p, at, answer) && Reconciled(c, p.tables, t1, t2, at)
    ensures forall m: nat :: Seen(c, t2, at, m) || Publishing(t0, m) ==> Publishing(t2, m)
  {
    hide Constraints, RoutesSoFar, SlotsSoFar, DemotionsSoFar, EventsSoFar, Named, Publishing, Seen, SlotsMoved, HadDeparted;
    var t := p.tables;
    AllStamped(c, t0, t, at, answer);
    var retailers := RetailersOf(t1.routes, DemotedNotSeen(t.routes, c.network, at));
    forall m: nat | Seen(c, t2, at, m) || Publishing(t0, m) ensures Publishing(t2, m) {
      if m !in retailers { PublishesStill(c, t0, t, t1, t2, at, m); }
    }
  }

  lemma CompleteDemotions(c: Config, t0: Tables, p: Progress, t1: Tables, q: Progress, at: int, answer: seq<Report>)
    requires Midway(c, t0, p, at, answer) && Reconciled(c, p.tables, t1, q.tables, at) && Constraints(q.tables)
    requires q.demoted == p.demoted + DemotedNotSeen(p.tables.routes, c.network, at)
    ensures DemotionsSoFar(t0, q)
  {
    hide Constraints, RoutesSoFar, SlotsSoFar, DemotionsSoFar, EventsSoFar, Named, Publishing, Seen, SlotsMoved, SameIdentity;
    var t, d := p.tables, DemotedNotSeen(p.tables.routes, c.network, at);
    DepartedAreVacant(c, t, t1, at);
    assert forall m <- RetailersOf(t1.routes, d) :: !Seen(c, t, at, m) by { Unwritten(c, t, t1, d, at); }
    AllStamped(c, t0, t, at, answer);
    DemotionsDepart(c, t0, p, t1, q.tables, at, RetailersOf(t1.routes, d));
    DemotionsCarry(t0, p.(tables := q.tables, demoted := p.demoted + d), q);
  }

  lemma DemotionsCarry(t0: Tables, p: Progress, q: Progress)
    requires DemotionsSoFar(t0, p) && p.tables == q.tables && p.demoted == q.demoted
    ensures DemotionsSoFar(t0, q)
  {
  }

  lemma Unwritten(c: Config, t: Tables, t1: Tables, departed: seq<nat>, at: int)
    requires forall k :: 0 <= k < |departed| ==> departed[k] < |t1.routes| && !Seen(c, t, at, t1.routes[departed[k]].merchant)
    ensures forall m <- RetailersOf(t1.routes, departed) :: !Seen(c, t, at, m)
  {
    hide Seen;
  }

  lemma AllStamped(c: Config, t0: Tables, t: Tables, at: int, answer: seq<Report>)
    requires RoutesSoFar(c, t0, t, at, answer)
    ensures forall i :: |t0.routes| <= i < |t.routes| ==> t.routes[i].network == c.network && t.routes[i].retrievedAt == at
    ensures |t0.routes| <= |t.routes| && forall i :: 0 <= i < |t0.routes| ==> SameIdentity(t0.routes[i], t.routes[i])
  {
    forall i | |t0.routes| <= i < |t.routes| ensures t.routes[i].network == c.network && t.routes[i].retrievedAt == at {
      assert Stamped(c, t.routes[i], answer);
    }
  }

  lemma WithdrawnIsHadDeparted(c: Config, t: Tables, t1: Tables, at: int, j: nat)
    requires |t1.routes| == |t.routes| && j < |t.routes| && t.routes[j].preferred && NotSeen(t.routes[j], c.network, at)
    ensures t1.routes[j].merchant in RetailersOf(t1.routes, DemotedNotSeen(t.routes, c.network, at))
  {
    var d := DemotedNotSeen(t.routes, c.network, at);
    assert j in d;
    var k :| 0 <= k < |d| && d[k] == j;
    assert HadDeparted(t1.routes, d, t1.routes[j].merchant);
  }

  /** A retailer the reconciliation withdrew nothing from still publishes if it can. */
  lemma PublishesStill(c: Config, t0: Tables, t: Tables, t1: Tables, t2: Tables, at: int, m: nat)
    requires SlotsSoFar(c, t0, t, at) && Reconciled(c, t, t1, t2, at)
    requires forall i :: |t0.routes| <= i < |t.routes| ==> t.routes[i].network == c.network && t.routes[i].retrievedAt == at
    requires forall i :: 0 <= i < |t0.routes| ==> SameIdentity(t0.routes[i], t.routes[i])
    requires m !in RetailersOf(t1.routes, DemotedNotSeen(t.routes, c.network, at))
    requires Seen(c, t2, at, m) || Publishing(t0, m)
    ensures Publishing(t2, m)
  {
    hide HadDeparted, Constraints;
    if HasPublishable(t2, m) {
      var i :| 0 <= i < |t2.routes| && t2.routes[i].merchant == m && t2.routes[i].Publishable();
      assert SlotOnly(t1.routes[i], t2.routes[i]);
      assert t.routes[i].Publishable() && t.routes[i].merchant == m;
      if Seen(c, t2, at, m) {
        var k :| 0 <= k < |t2.routes| && t2.routes[k].merchant == m && t2.routes[k].network == c.network && t2.routes[k].retrievedAt == at;
        assert SlotOnly(t1.routes[k], t2.routes[k]);
        assert Seen(c, t, at, m);
      }
      var j := PreferredBefore(c, t0, t, at, m, i);
      assert !NotSeen(t.routes[j], c.network, at) by {
        if NotSeen(t.routes[j], c.network, at) { WithdrawnIsHadDeparted(c, t, t1, at, j); }
      }
      assert t2.routes[j].preferred;
    }
  }

  lemma PreferredBefore(c: Config, t0: Tables, t: Tables, at: int, m: nat, i: nat) returns (j: nat)
    requires SlotsSoFar(c, t0, t, at) && i < |t.routes| && t.routes[i].merchant == m && t.routes[i].Publishable()
    requires forall i :: |t0.routes| <= i < |t.routes| ==> t.routes[i].network == c.network && t.routes[i].retrievedAt == at
    requires forall i :: 0 <= i < |t0.routes| ==> SameIdentity(t0.routes[i], t.routes[i])
    requires Seen(c, t, at, m) || Publishing(t0, m)
    ensures j < |t.routes| && t.routes[j].merchant == m && t.routes[j].preferred
  {
    if Seen(c, t, at, m) {
      assert Publishing(t, m);
      assert HasPublishable(t, m);
      j :| 0 <= j < |t.routes| && t.routes[j].merchant == m && t.routes[j].preferred;
    } else {
      assert i < |t0.routes| && t0.routes[i] == t.routes[i];
      assert HasPublishable(t0, m);
      var b: nat :| b < |t0.routes| && t0.routes[b].merchant == m && t0.routes[b].preferred;
      assert SameIdentity(t0.routes[b], t.routes[b]);
      j := b;
    }
  }
}

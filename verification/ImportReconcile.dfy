/** The reconciliation that follows a complete answer. */
module ImportReconcile {
  import opened Options
  import opened Catalogue
  import opened Import
  import opened ImportStep
  import opened ImportRun

  /** A route the answer left out, once it has been withdrawn and marked. */
  function Left(c: Config, r: Route, at: int): Route {
    if NotSeen(r, c.network, at) then r.(preferred := false, status := LeftNetwork) else r
  }

  lemma DepartingDoes(c: Config, p: Progress, at: int)
    requires Constraints(p.tables)
    ensures var p1 := Departing(c, p, at);
      && Constraints(p1.tables) && |p1.tables.routes| == |p.tables.routes|
      && p1 == p.(tables := p.tables.(routes := p1.tables.routes), demoted := p1.demoted, departed := p1.departed)
      && (forall i :: 0 <= i < |p.tables.routes| ==> p1.tables.routes[i] == Left(c, p.tables.routes[i], at))
  {
    var t := p.tables;
    DemoteNotSeenKeeps(t, c.network, at);
    var t1 := DemoteNotSeen(t, c.network, at);
    assert forall i :: 0 <= i < |t.routes| ==> t1.routes[i] == DemoteOne(t.routes[i], c.network, at);
    hide Constraints;
    MarkNotSeenKeeps(t1, c.network, at);
  }

  // ---- handing over from every departed route ----

  predicate HadDeparted(routes: seq<Route>, departed: seq<nat>, m: nat) {
    exists k :: 0 <= k < |departed| && departed[k] < |routes| && routes[departed[k]].merchant == m
  }

  ghost function RetailersOf(routes: seq<Route>, departed: seq<nat>): iset<nat> { iset m: nat | HadDeparted(routes, departed, m) }

  /** Departed routes of different retailers, each left with nothing published. */
  ghost predicate Vacant(t: Tables, departed: seq<nat>) {
    && (forall k :: 0 <= k < |departed| ==> departed[k] < |t.routes| && !HasPreferred(t, t.routes[departed[k]].merchant))
    && (forall a, b :: 0 <= a < b < |departed| ==> t.routes[departed[a]].merchant != t.routes[departed[b]].merchant)
  }

  ghost predicate SlotsMoved(t: Tables, t': Tables, retailers: iset<nat>) {
    && t'.merchants == t.merchants && |t'.routes| == |t.routes|
    && (forall i :: 0 <= i < |t.routes| ==> SlotOnly(t.routes[i], t'.routes[i]) && (t.routes[i].preferred ==> t'.routes[i].preferred))
    && (forall i :: 0 <= i < |t.routes| && t.routes[i].merchant !in retailers ==> t'.routes[i] == t.routes[i])
  }

  /** What handing over from all of them has done. */
  ghost predicate HandedOver(t0: Tables, p: Progress, q: Progress, departed: seq<nat>, at: int, touched: iset<nat>) {
    && Constraints(q.tables) && SlotsMoved(p.tables, q.tables, RetailersOf(p.tables.routes, departed))
    && (forall m <- RetailersOf(p.tables.routes, departed) :: Publishing(q.tables, m))
    && EventsSoFar(t0, q, at, touched + RetailersOf(p.tables.routes, departed))
    && t0.events <= p.tables.events && Named(News(t0, q.tables)) == Named(News(t0, p.tables)) + departed
    && q.seen == p.seen && q.created == p.created && q.departed == p.departed && q.demoted == p.demoted
  }

  lemma {:induction false} HandOverAllDoes(c: Config, t0: Tables, p: Progress, departed: seq<nat>, at: int, touched: iset<nat>)
    requires Constraints(p.tables) && NewInstant(c, t0, at) && EventsSoFar(t0, p, at, touched)
    requires Vacant(p.tables, departed) && (forall k :: 0 <= k < |departed| ==> p.tables.routes[departed[k]].merchant !in touched)
    ensures HandOverAll(p, departed, at).Ok? && HandedOver(t0, p, HandOverAll(p, departed, at).p, departed, at, touched)
  {
    hide Constraints, NewInstant, HandOver;
    if |departed| == 0 {
      assert RetailersOf(p.tables.routes, departed) == iset{};
      assert touched + iset{} == touched;
    } else {
      var before, last := departed[..|departed| - 1], departed[|departed| - 1];
      assert departed == before + [last];
      HandOverAllDoes(c, t0, p, before, at, touched);
      var q := HandOverAll(p, before, at).p;
      HandOverNext(c, t0, p, q, before, last, at, touched);
    }
  }

  lemma RetailersNext(routes: seq<Route>, departed: seq<nat>, last: nat)
    requires last < |routes|
    ensures RetailersOf(routes, departed + [last]) == RetailersOf(routes, departed) + iset{routes[last].merchant}
  {
    var next := departed + [last];
    forall m: nat ensures m in RetailersOf(routes, next) <==> m in RetailersOf(routes, departed) || m == routes[last].merchant {
      if m in RetailersOf(routes, departed) {
        var k :| 0 <= k < |departed| && departed[k] < |routes| && routes[departed[k]].merchant == m;
        assert next[k] == departed[k];
      }
      if m == routes[last].merchant { assert next[|departed|] == last; }
    }
  }

  lemma HandOverNext(c: Config, t0: Tables, p: Progress, q: Progress, departed: seq<nat>, last: nat, at: int, touched: iset<nat>)
    requires NewInstant(c, t0, at) && HandedOver(t0, p, q, departed, at, touched)
    requires Vacant(p.tables, departed + [last]) && p.tables.routes[(departed + [last])[|departed|]].merchant !in touched
    ensures HandOver(q, p.tables.routes[last].merchant, Some(last), at).Ok?
    ensures HandedOver(t0, p, HandOver(q, p.tables.routes[last].merchant, Some(last), at).p, departed + [last], at, touched)
  {
    hide Constraints, NewInstant, HandOver, Publishing, Named, Accounted, SameElsewhere, EventTrue;
    assert (departed + [last])[|departed|] == last;
    var m, reached := p.tables.routes[last].merchant, RetailersOf(p.tables.routes, departed);
    Unreached(p.tables, departed, last);
    assert !HasPreferred(q.tables, m) by { StillVacant(p.tables, q.tables, reached, m); }
    StillQuiet(c, t0, q, at, touched + reached, m);
    HandOverDoes(q, m, Some(last), at);
    var q' := HandOver(q, m, Some(last), at).p;
    MovedOnlyThere(q.tables, q'.tables, m);
    EventsNext(t0, q, q', at, touched + reached, m, Some(last));
    hide EventsSoFar;
    RetailersNext(p.tables.routes, departed, last);
    assert touched + reached + iset{m} == touched + (reached + iset{m});
    forall x <- reached ensures Publishing(q'.tables, x) { MovedElsewhere(q.tables, q'.tables, m, x); }
    IsPublishing(q'.tables, m);
    hide RetailersOf, Vacant;
    Moved(p.tables, q.tables, q'.tables, reached, m);
  }

  lemma IsPublishing(t: Tables, m: nat)
    requires HasPublishable(t, m) ==> HasPreferred(t, m)
    ensures Publishing(t, m)
  {
  }

  lemma Unreached(t: Tables, departed: seq<nat>, last: nat)
    requires Vacant(t, departed + [last])
    ensures last < |t.routes| && !HasPreferred(t, t.routes[last].merchant)
    ensures t.routes[last].merchant !in RetailersOf(t.routes, departed)
  {
    var next := departed + [last];
    assert next[|departed|] == last;
    forall k | 0 <= k < |departed| ensures departed[k] < |t.routes| && t.routes[departed[k]].merchant != t.routes[last].merchant {
      assert next[k] == departed[k];
    }
  }

  lemma StillVacant(t: Tables, t': Tables, retailers: iset<nat>, merchant: nat)
    requires SlotsMoved(t, t', retailers) && merchant !in retailers && !HasPreferred(t, merchant)
    ensures !HasPreferred(t', merchant)
  {
    forall i | 0 <= i < |t'.routes| && t'.routes[i].merchant == merchant ensures !t'.routes[i].preferred {
      assert SlotOnly(t.routes[i], t'.routes[i]);
    }
  }

  lemma MovedElsewhere(t: Tables, t': Tables, merchant: nat, other: nat)
    requires SlotMoved(t, t', merchant) && Publishing(t, other)
    requires other != merchant
    ensures Publishing(t', other)
  {
    if HasPublishable(t', other) {
      var i :| 0 <= i < |t'.routes| && t'.routes[i].merchant == other && t'.routes[i].Publishable();
      assert SlotOnly(t.routes[i], t'.routes[i]);
      var j :| 0 <= j < |t.routes| && t.routes[j].merchant == other && t.routes[j].preferred;
      assert t'.routes[j].preferred;
    }
  }

  lemma MovedOnlyThere(t: Tables, t': Tables, merchant: nat)
    requires SlotMoved(t, t', merchant)
    ensures SameElsewhere(t, t', merchant)
  {
    forall i | 0 <= i < |t'.routes| && t'.routes[i].merchant != merchant ensures t'.routes[i] == t.routes[i] {
      assert SlotOnly(t.routes[i], t'.routes[i]);
    }
  }

  /** What was announced of a retailer the run has written is still so: its route here
      is stamped, and its others are not at this network. */
  lemma EventsDepart(c: Config, t0: Tables, p: Progress, p1: Progress, at: int)
    requires Constraints(p.tables) && EventsSoFar(t0, p, at, Touched(c, p.tables, at))
    requires |p1.tables.routes| == |p.tables.routes| && p1.tables.events == p.tables.events
    requires p1.republished == p.republished && p1.lost == p.lost
    requires forall i :: 0 <= i < |p.tables.routes| ==> p1.tables.routes[i] == Left(c, p.tables.routes[i], at)
    ensures EventsSoFar(t0, p1, at, Touched(c, p.tables, at)) && News(t0, p1.tables) == News(t0, p.tables)
  {
    var t, t1, news := p.tables, p1.tables, News(t0, p.tables);
    assert News(t0, t1) == news;
    hide Republications, Losses;
    forall n | 0 <= n < |news| ensures EventTrue(t1, news[n]) {
      assert EventTrue(t, news[n]) && Seen(c, t, at, news[n].merchant);
      SeenStay(c, t, at, news[n].merchant);
      hide Seen, Constraints;
    }
  }

  lemma SeenStay(c: Config, t: Tables, at: int, merchant: nat)
    requires Constraints(t) && Seen(c, t, at, merchant)
    ensures forall i :: 0 <= i < |t.routes| && t.routes[i].merchant == merchant ==> Left(c, t.routes[i], at) == t.routes[i]
  {
  }

  lemma Moved(t: Tables, t1: Tables, t2: Tables, retailers: iset<nat>, merchant: nat)
    requires SlotsMoved(t, t1, retailers) && SlotMoved(t1, t2, merchant)
    ensures SlotsMoved(t, t2, retailers + iset{merchant})
  {
    forall i | 0 <= i < |t.routes|
      ensures SlotOnly(t.routes[i], t2.routes[i]) && (t.routes[i].preferred ==> t2.routes[i].preferred)
      ensures t.routes[i].merchant !in retailers + iset{merchant} ==> t2.routes[i] == t.routes[i]
    {
      assert SlotOnly(t.routes[i], t1.routes[i]) && SlotOnly(t1.routes[i], t2.routes[i]);
    }
  }

  // ---- a complete run ----

  ghost predicate StatusAfter(c: Config, r: Route, r': Route, at: int) {
    SlotOnly(if r.network == c.network && r.retrievedAt < at then r.(status := LeftNetwork) else r, r')
  }

  /** What a run over a complete answer has done to the routes. */
  ghost predicate RoutesAfter(c: Config, t0: Tables, t: Tables, at: int, answer: seq<Report>) {
    && t0.merchants <= t.merchants && |t0.routes| <= |t.routes|
    && (forall i :: 0 <= i < |t0.routes| ==> SameIdentity(t0.routes[i], t.routes[i]))
    && (forall i :: 0 <= i < |t.routes| ==>
          if Stamped(c, t.routes[i], answer) then t.routes[i].retrievedAt == at
          else i < |t0.routes| && StatusAfter(c, t0.routes[i], t.routes[i], at))
    && (forall i :: |t0.routes| <= i < |t.routes| ==> t.routes[i].brand == c.brand && t.routes[i].canAttribute)
    && (forall j :: 0 <= j < |answer| ==> Reported(c, t, at, answer[j]))
  }

  lemma RoutesDepart(c: Config, t0: Tables, t: Tables, t1: Tables, t2: Tables, at: int, answer: seq<Report>, retailers: iset<nat>)
    requires RoutesSoFar(c, t0, t, at, answer)
    requires t1.merchants == t.merchants && |t1.routes| == |t.routes|
    requires forall i :: 0 <= i < |t.routes| ==> t1.routes[i] == Left(c, t.routes[i], at)
    requires SlotsMoved(t1, t2, retailers)
    ensures RoutesAfter(c, t0, t2, at, answer)
  {
    hide Mentioned;
    forall i | 0 <= i < |t.routes|
      ensures if Stamped(c, t2.routes[i], answer) then t2.routes[i].retrievedAt == at
              else i < |t0.routes| && StatusAfter(c, t0.routes[i], t2.routes[i], at)
      ensures i < |t0.routes| ==> SameIdentity(t0.routes[i], t2.routes[i])
      ensures i >= |t0.routes| ==> t2.routes[i].brand == c.brand && t2.routes[i].canAttribute
    {
      assert SlotOnly(t1.routes[i], t2.routes[i]);
      assert Stamped(c, t2.routes[i], answer) == Stamped(c, t.routes[i], answer);
    }
    forall j | 0 <= j < |answer| ensures Reported(c, t2, at, answer[j]) {
      assert Reported(c, t, at, answer[j]);
      var i :| 0 <= i < |t.routes| && IsRouteOf(c, t.routes[i], at, answer[j], t.routes[i].merchant);
      assert SlotOnly(t1.routes[i], t2.routes[i]);
      assert IsRouteOf(c, t2.routes[i], at, answer[j], t2.routes[i].merchant);
    }
  }

  /** The routes withdrawn by the reconciliation belong to retailers the run has not
      written, each to another, and leave each with nothing published. */
  lemma DepartedAreVacant(c: Config, t: Tables, t1: Tables, at: int)
    requires Constraints(t) && |t1.routes| == |t.routes|
    requires forall i :: 0 <= i < |t.routes| ==> t1.routes[i] == Left(c, t.routes[i], at)
    ensures var departed := DemotedNotSeen(t.routes, c.network, at);
      && Vacant(t1, departed)
      && forall k :: 0 <= k < |departed| ==> !Seen(c, t, at, t1.routes[departed[k]].merchant)
  {
    hide Constraints, Seen, HasPreferred;
    var departed := DemotedNotSeen(t.routes, c.network, at);
    assert forall k :: 0 <= k < |departed| ==> departed[k] in departed;
    forall k | 0 <= k < |departed|
      ensures departed[k] < |t.routes| && !HasPreferred(t1, t1.routes[departed[k]].merchant)
      ensures !Seen(c, t, at, t1.routes[departed[k]].merchant)
    {
      OneIsVacant(c, t, t1, at, departed[k]);
    }
    forall a, b | 0 <= a < b < |departed| ensures t1.routes[departed[a]].merchant != t1.routes[departed[b]].merchant {
      OnePublished(t, departed[a], departed[b]);
    }
  }

  lemma OnePublished(t: Tables, i: nat, j: nat)
    requires Constraints(t) && i < j < |t.routes| && t.routes[i].preferred && t.routes[j].preferred
    ensures t.routes[i].merchant != t.routes[j].merchant
  {
  }

  /** A published route the answer left out is its retailer's only one here, and its only
      published one. */
  lemma OneIsVacant(c: Config, t: Tables, t1: Tables, at: int, i: nat)
    requires Constraints(t) && |t1.routes| == |t.routes|
    requires forall j :: 0 <= j < |t.routes| ==> t1.routes[j] == Left(c, t.routes[j], at)
    requires i < |t.routes| && NotSeen(t.routes[i], c.network, at) && t.routes[i].preferred
    ensures !HasPreferred(t1, t1.routes[i].merchant) && !Seen(c, t, at, t1.routes[i].merchant)
  {
    assert OnePreferred(t) && OneRoutePerNetwork(t);
    hide Constraints;
    forall j | 0 <= j < |t.routes| && t.routes[j].merchant == t.routes[i].merchant
      ensures !t1.routes[j].preferred && !(t.routes[j].network == c.network && t.routes[j].retrievedAt == at)
    {
    }
  }

  lemma DemotionsDepart(c: Config, t0: Tables, p: Progress, t1: Tables, t2: Tables, at: int, retailers: iset<nat>)
    requires Constraints(p.tables) && DemotionsSoFar(t0, p) && SlotsSoFar(c, t0, p.tables, at) && Constraints(t2)
    requires |t1.routes| == |p.tables.routes|
    requires forall i :: 0 <= i < |p.tables.routes| ==> t1.routes[i] == Left(c, p.tables.routes[i], at)
    requires forall i :: |t0.routes| <= i < |t1.routes| ==> !NotSeen(p.tables.routes[i], c.network, at)
    requires SlotsMoved(t1, t2, retailers) && forall m <- retailers :: !Seen(c, p.tables, at, m)
    ensures DemotionsSoFar(t0, p.(tables := t2, demoted := p.demoted + DemotedNotSeen(p.tables.routes, c.network, at)))
  {
    DepartedAreVacant(c, p.tables, t1, at);
    hide Seen, SlugsFormed, SlugsUnique, RoutesReferMerchants, ExternalsUnique, OneRoutePerNetwork, OnePreferred, KeysUnique, Vacant;
    var t, d := p.tables, DemotedNotSeen(p.tables.routes, c.network, at);
    forall i: nat
      ensures i in p.demoted + d <==> i < |t0.routes| && t0.routes[i].preferred && !t2.routes[i].preferred
    {
      if i < |t.routes| {
        assert SlotOnly(t1.routes[i], t2.routes[i]);
        if i < |t0.routes| && !Seen(c, t, at, t.routes[i].merchant) {
          assert t.routes[i] == t0.routes[i];
        }
        if i in d {
          var k :| 0 <= k < |d| && d[k] == i;
          assert !Seen(c, t, at, t1.routes[d[k]].merchant);
          assert t2.routes[i].status == LeftNetwork;
        }
      }
    }
    forall a, b | 0 <= a < b < |p.demoted + d| ensures (p.demoted + d)[a] != (p.demoted + d)[b] {
      assert (p.demoted + d)[a] in p.demoted + d;
      assert (p.demoted + d)[b] in p.demoted + d;
      if a < |p.demoted| <= b { assert p.demoted[a] in p.demoted && d[b - |p.demoted|] in d; }
    }
  }
}

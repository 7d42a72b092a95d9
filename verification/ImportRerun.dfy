/** Importing the same answer again changes nothing but when the routes were read. */
module ImportRerun {
  import opened Options
  import opened Catalogue
  import opened Import
  import opened ImportStep
  import opened ImportRun
  import opened ImportReconcile
  import opened ImportComplete
  import opened ImportTheorems

  function RestampOne(c: Config, r: Route, at: int, answer: seq<Report>): Route {
    if Stamped(c, r, answer) then r.(retrievedAt := at) else r
  }

  function Restamped(c: Config, t: Tables, at: int, answer: seq<Report>): (t': Tables)
    ensures |t'.routes| == |t.routes|
  {
    t.(routes := seq(|t.routes|, i requires 0 <= i < |t.routes| => RestampOne(c, t.routes[i], at, answer)))
  }

  /** The tables already say what the answer says. */
  ghost predicate Agrees(c: Config, t: Tables, answer: seq<Report>) {
    && Constraints(t)
    && (forall j :: 0 <= j < |answer| ==> Holds(c, t, answer[j]))
    && (forall i :: 0 <= i < |t.routes| && t.routes[i].network == c.network && !Mentioned(answer, t.routes[i].external) ==> t.routes[i].status == LeftNetwork)
  }

  ghost predicate Holds(c: Config, t: Tables, r: Report) {
    && FindRoute(t.routes, c.network, r.external).Some?
    && var k := FindRoute(t.routes, c.network, r.external).value;
       t.routes[k].status == r.status && Publishing(t, t.routes[k].merchant)
  }

  /** Only the reading instants differ. */
  ghost predicate Restamping(t: Tables, u: Tables) {
    && u.merchants == t.merchants && u.events == t.events && |u.routes| == |t.routes|
    && (forall i :: 0 <= i < |t.routes| ==> u.routes[i] == t.routes[i].(retrievedAt := u.routes[i].retrievedAt))
  }

  lemma RestampKeeps(t: Tables, u: Tables)
    requires Constraints(t) && Restamping(t, u)
    ensures Constraints(u)
  {
  }

  lemma HoldsStill(c: Config, t: Tables, u: Tables, r: Report)
    requires Constraints(t) && Restamping(t, u) && Holds(c, t, r)
    ensures Holds(c, u, r) && FindRoute(u.routes, c.network, r.external) == FindRoute(t.routes, c.network, r.external)
  {
    RestampKeeps(t, u);
    var k := FindRoute(t.routes, c.network, r.external).value;
    assert u.routes[k] == t.routes[k].(retrievedAt := u.routes[k].retrievedAt);
    FindRouteIs(u, k);
    hide Constraints;
    var m := t.routes[k].merchant;
    if HasPublishable(u, m) {
      var i :| 0 <= i < |u.routes| && u.routes[i].merchant == m && u.routes[i].Publishable();
      assert t.routes[i].merchant == m && t.routes[i].Publishable();
      var j :| 0 <= j < |t.routes| && t.routes[j].merchant == m && t.routes[j].preferred;
      assert u.routes[j].preferred;
    }
  }

  lemma WriteAgain(c: Config, p: Progress, at: int, r: Report)
    requires Constraints(p.tables) && Holds(c, p.tables, r)
    ensures var k := FindRoute(p.tables.routes, c.network, r.external).value;
      var routes := p.tables.routes[k := p.tables.routes[k].(retrievedAt := at)];
      WriteRoute(c, p, at, r) == Ok(p.(tables := p.tables.(routes := routes), seen := p.seen + 1))
  {
    var t := p.tables;
    var k := FindRoute(t.routes, c.network, r.external).value;
    var m := t.routes[k].merchant;
    assert Withdrawn(c, t, r).None? by { assert t.routes[k].preferred ==> t.routes[k].Publishable(); }
    hide Constraints;
    var u := t.(routes := t.routes[k := t.routes[k].(retrievedAt := at)]);
    assert Upserted(c, p, at, r, m) == p.(tables := u, seen := p.seen + 1) by {
      assert t.routes[k].(retrievedAt := at, status := r.status) == t.routes[k].(retrievedAt := at);
    }
    assert Restamping(t, u);
    assert Settled(c, p, r) == Ok(p) && MerchantOf(c, t, r) == m;
    hide Upserted, Withdrawn, Settled, MerchantOf, FindRoute;
    if !HasPreferred(t, m) {
      NothingToPromote(t, u, m);
    }
  }

  lemma NothingToPromote(t: Tables, u: Tables, m: nat)
    requires Restamping(t, u) && Publishing(t, m) && !HasPreferred(t, m)
    ensures Promotable(u, m).None?
  {
    var best := Earliest(u.routes, m);
    if best.Some? {
      assert t.routes[best.value].merchant == m && t.routes[best.value].Publishable();
    }
  }

  lemma RestampNext(c: Config, t: Tables, at: int, answer: seq<Report>, r: Report, k: nat)
    requires Constraints(t) && k < |t.routes| && t.routes[k].network == c.network && t.routes[k].external == r.external
    ensures var u := Restamped(c, t, at, answer);
      Restamped(c, t, at, answer + [r]) == u.(routes := u.routes[k := u.routes[k].(retrievedAt := at)])
  {
    hide Mentioned;
    var u := Restamped(c, t, at, answer);
    forall i | 0 <= i < |t.routes|
      ensures Restamped(c, t, at, answer + [r]).routes[i] == u.routes[k := u.routes[k].(retrievedAt := at)][i]
    {
      MentionedNext(answer, r, t.routes[i].external);
    }
    assert Restamped(c, t, at, answer + [r]).routes == u.routes[k := u.routes[k].(retrievedAt := at)];
  }

  lemma {:induction false} WriteAllAgain(c: Config, t: Tables, at: int, answer: seq<Report>)
    requires Constraints(t) && forall j :: 0 <= j < |answer| ==> Holds(c, t, answer[j])
    ensures WriteAll(c, Start(t), at, answer) == Ok(Start(t).(tables := Restamped(c, t, at, answer), seen := |answer|))
  {
    hide Constraints, Holds, WriteRoute;
    if |answer| == 0 {
      assert Restamped(c, t, at, answer).routes == t.routes;
    } else {
      var before, r := answer[..|answer| - 1], answer[|answer| - 1];
      assert before + [r] == answer;
      assert Holds(c, t, r);
      WriteAllAgain(c, t, at, before);
      var u := Restamped(c, t, at, before);
      RestampKeeps(t, u);
      HoldsStill(c, t, u, r);
      WriteAgain(c, Start(t).(tables := u, seen := |before|), at, r);
      RestampNext(c, t, at, before, r, RowOfReport(c, t, r));
    }
  }

  function RowOfReport(c: Config, t: Tables, r: Report): (k: nat)
    requires Holds(c, t, r)
    ensures FindRoute(t.routes, c.network, r.external) == Some(k) && k < |t.routes|
    ensures t.routes[k].network == c.network && t.routes[k].external == r.external
  {
    FindRoute(t.routes, c.network, r.external).value
  }

  lemma {:induction false} NoneDeparting(routes: seq<Route>, network: string, at: int)
    requires forall i :: 0 <= i < |routes| ==> !NotSeen(routes[i], network, at)
    ensures DemotedNotSeen(routes, network, at) == [] && DepartingCount(routes, network, at) == 0
  {
    if |routes| > 0 { NoneDeparting(routes[..|routes| - 1], network, at); }
  }

  lemma ReconcileAgain(c: Config, p: Progress, at: int)
    requires forall i :: 0 <= i < |p.tables.routes| ==> !NotSeen(p.tables.routes[i], c.network, at)
    ensures Reconcile(c, p, at) == Ok(p.(departed := 0))
  {
    NoneDeparting(p.tables.routes, c.network, at);
    var t := p.tables;
    assert DemoteNotSeen(t, c.network, at).routes == t.routes;
    assert MarkNotSeen(t, c.network, at).routes == t.routes;
    assert p.demoted + [] == p.demoted;
  }

  /** An answer the tables already agree with: no retailer is created, no status and no
      published slot moves, nothing is announced. */
  lemma RunAgain(c: Config, t: Tables, at: int, answer: seq<Report>)
    requires Agrees(c, t, answer)
    ensures Run(c, t, at, answer, true) == Ok(Start(t).(tables := Restamped(c, t, at, answer), seen := |answer|))
    ensures Restamping(t, Restamped(c, t, at, answer))
  {
    WriteAllAgain(c, t, at, answer);
    hide Constraints, Mentioned, Holds, WriteAll, Reconcile;
    ReconcileAgain(c, Start(t).(tables := Restamped(c, t, at, answer), seen := |answer|), at);
  }

  /** Which is what a run leaves, when every route it found had been read before. */
  lemma RunThenAgrees(c: Config, t: Tables, at: int, answer: seq<Report>)
    requires Constraints(t) && NewInstant(c, t, at) && Distinct(answer) && Run(c, t, at, answer, true).Ok?
    requires forall i :: 0 <= i < |t.routes| && t.routes[i].network == c.network ==> t.routes[i].retrievedAt < at
    ensures Agrees(c, Run(c, t, at, answer, true).p.tables, answer)
  {
    hide Run, Constraints, NewInstant, Complete, Holds;
    RunCompletes(c, t, at, answer);
    var q := Run(c, t, at, answer, true).p;
    forall j | 0 <= j < |answer| ensures Holds(c, q.tables, answer[j]) { HoldsAfter(c, t, q, at, answer, j); }
    UnmentionedHasLeft(c, t, q, at, answer);
  }

  lemma HoldsAfter(c: Config, t: Tables, q: Progress, at: int, answer: seq<Report>, j: nat)
    requires Complete(c, t, q, at, answer) && j < |answer|
    ensures Holds(c, q.tables, answer[j])
  {
    hide Constraints, EventsSoFar, DemotionsSoFar, Named, GoneFrom, Mentioned;
    var t' := q.tables;
    assert Reported(c, t', at, answer[j]);
    var k :| 0 <= k < |t'.routes| && IsRouteOf(c, t'.routes[k], at, answer[j], t'.routes[k].merchant);
    hide RoutesAfter;
    assert Seen(c, t', at, t'.routes[k].merchant);
    KeptKey(t', k);
  }

  lemma UnmentionedHasLeft(c: Config, t: Tables, q: Progress, at: int, answer: seq<Report>)
    requires Complete(c, t, q, at, answer)
    requires forall i :: 0 <= i < |t.routes| && t.routes[i].network == c.network ==> t.routes[i].retrievedAt < at
    ensures Constraints(q.tables)
    ensures forall i :: 0 <= i < |q.tables.routes| && q.tables.routes[i].network == c.network && !Mentioned(answer, q.tables.routes[i].external) ==> q.tables.routes[i].status == LeftNetwork
  {
    hide Constraints, EventsSoFar, DemotionsSoFar, Named, GoneFrom, Mentioned, Reported;
  }

  /** Idempotence: the same answer imported again, at any later instant. */
  lemma RerunChangesNothing(c: Config, t: Tables, at: int, again: int, answer: seq<Report>)
    requires Constraints(t) && NewInstant(c, t, at) && Distinct(answer) && Run(c, t, at, answer, true).Ok?
    requires forall i :: 0 <= i < |t.routes| && t.routes[i].network == c.network ==> t.routes[i].retrievedAt < at
    ensures var first := Run(c, t, at, answer, true).p.tables;
      var second := Run(c, first, again, answer, true);
      && second.Ok? && Restamping(first, second.p.tables)
      && second.p.created == 0 && second.p.departed == 0 && second.p.demoted == []
      && second.p.republished == 0 && second.p.lost == 0
  {
    hide Constraints, NewInstant, Agrees;
    RunThenAgrees(c, t, at, answer);
    RunAgain(c, Run(c, t, at, answer, true).p.tables, again, answer);
  }
}

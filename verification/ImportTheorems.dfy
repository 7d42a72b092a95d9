/** What a whole import does, for every answer and every start state the database allows. */
module ImportTheorems {
  import opened Options
  import opened Catalogue
  import opened Import
  import opened ImportStep
  import opened ImportRun
  import opened ImportReconcile
  import opened ImportComplete

  lemma RunCompletes(c: Config, t: Tables, at: int, answer: seq<Report>)
    requires Constraints(t) && NewInstant(c, t, at) && Distinct(answer)
    ensures match Run(c, t, at, answer, true)
      case Abort(error) => error in {RouteConflict, NoSlug}
      case Ok(q) => Complete(c, t, q, at, answer)
  {
    hide Constraints, NewInstant, Midway, Complete, WriteAll, Reconcile;
    WriteAllMidway(c, t, at, answer);
    match WriteAll(c, Start(t), at, answer) {
      case Abort(_) =>
      case Ok(p) => ReconcileDoes(c, t, p, at, answer);
    }
  }

  /** No run is ever refused by a constraint or an idempotency key: it ends, and the
      tables it leaves satisfy every constraint, or it stops at a retailer it cannot
      name or tell apart, or at the end of an answer that was cut short. */
  lemma SlotSafety(c: Config, t: Tables, at: int, answer: seq<Report>, complete: bool)
    requires Constraints(t) && NewInstant(c, t, at) && Distinct(answer)
    ensures match Run(c, t, at, answer, complete)
      case Ok(q) => complete && Constraints(q.tables)
      case Abort(error) => error in {RouteConflict, NoSlug} || (error == Incomplete && !complete)
  {
    RunCompletes(c, t, at, answer);
    WriteAllMidway(c, t, at, answer);
    hide Constraints, NewInstant, Midway, WriteAll, Reconcile;
  }

  /** Every retailer that can publish does. */
  ghost predicate AllPublish(t: Tables) { forall m: nat :: Publishing(t, m) }

  /** Exactly one of its routes is the published one. */
  ghost predicate PublishesOnce(t: Tables, m: nat) {
    exists i :: 0 <= i < |t.routes| && t.routes[i].merchant == m && t.routes[i].preferred
      && forall j :: 0 <= j < |t.routes| && t.routes[j].merchant == m && t.routes[j].preferred ==> j == i
  }

  /** A run leaves no retailer that can publish and does not, if it found none. */
  lemma PublicationPreserved(c: Config, t: Tables, at: int, answer: seq<Report>)
    requires Constraints(t) && NewInstant(c, t, at) && Distinct(answer) && AllPublish(t)
    requires Run(c, t, at, answer, true).Ok?
    ensures var t' := Run(c, t, at, answer, true).p.tables;
      AllPublish(t') && RetailersPublishingNothing(t') == {}
  {
    hide Constraints, NewInstant, Run;
    RunCompletes(c, t, at, answer);
    var t' := Run(c, t, at, answer, true).p.tables;
    forall m: nat ensures Publishing(t', m) && !PublishesNothing(t', m) {
      assert Publishing(t, m);
    }
  }

  /** From any start, a retailer the run lists as publishing nothing is one it did not
      write, and one that could publish and did not before. */
  lemma ListedWereAlreadySo(c: Config, t: Tables, at: int, answer: seq<Report>, m: nat)
    requires Constraints(t) && NewInstant(c, t, at) && Distinct(answer) && Run(c, t, at, answer, true).Ok?
    requires m in RetailersPublishingNothing(Run(c, t, at, answer, true).p.tables)
    ensures !Seen(c, Run(c, t, at, answer, true).p.tables, at, m) && HasPublishable(t, m) && !HasPreferred(t, m)
  {
    hide Constraints, NewInstant, Run;
    RunCompletes(c, t, at, answer);
    assert !Publishing(Run(c, t, at, answer, true).p.tables, m);
  }

  /** Whatever it found, every retailer in the answer that can publish does, once. */
  lemma SeenRetailersPublish(c: Config, t: Tables, at: int, answer: seq<Report>, r: Report)
    requires Constraints(t) && NewInstant(c, t, at) && Distinct(answer) && r in answer
    requires Run(c, t, at, answer, true).Ok?
    ensures var t' := Run(c, t, at, answer, true).p.tables;
      exists i :: 0 <= i < |t'.routes| && IsRouteOf(c, t'.routes[i], at, r, t'.routes[i].merchant)
        && (HasPublishable(t', t'.routes[i].merchant) ==> PublishesOnce(t', t'.routes[i].merchant))
  {
    hide NewInstant, Run, Constraints, PublishesOnce;
    RunCompletes(c, t, at, answer);
    var t' := Run(c, t, at, answer, true).p.tables;
    var n :| 0 <= n < |answer| && answer[n] == r;
    assert Reported(c, t', at, answer[n]);
    var i :| 0 <= i < |t'.routes| && IsRouteOf(c, t'.routes[i], at, r, t'.routes[i].merchant);
    var m := t'.routes[i].merchant;
    assert Seen(c, t', at, m);
    if HasPublishable(t', m) { OnlyOne(t', m); }
  }

  lemma OnlyOne(t: Tables, m: nat)
    requires Constraints(t) && HasPreferred(t, m)
    ensures PublishesOnce(t, m)
  {
    var i :| 0 <= i < |t.routes| && t.routes[i].merchant == m && t.routes[i].preferred;
    assert forall j :: 0 <= j < |t.routes| && t.routes[j].merchant == m && t.routes[j].preferred ==> j == i;
  }

  predicate ReportedAs(answer: seq<Report>, external: string, status: Status) {
    exists j :: 0 <= j < |answer| && answer[j].external == external && answer[j].status == status
  }

  /** Reconciliation is exact. A route of this network that the answer mentions has the
      status reported; one it leaves out has left, if it was last retrieved before this
      run; and a route of another network keeps everything but its slot. */
  lemma ReconciliationExact(c: Config, t: Tables, at: int, answer: seq<Report>, i: nat)
    requires Constraints(t) && NewInstant(c, t, at) && Distinct(answer)
    requires Run(c, t, at, answer, true).Ok? && i < |t.routes|
    ensures var r, t' := t.routes[i], Run(c, t, at, answer, true).p.tables;
      && i < |t'.routes| && SameIdentity(r, t'.routes[i])
      && (r.network == c.network && Mentioned(answer, r.external) ==>
            t'.routes[i].retrievedAt == at && ReportedAs(answer, r.external, t'.routes[i].status))
      && (r.network == c.network && !Mentioned(answer, r.external) ==>
            t'.routes[i].retrievedAt == r.retrievedAt && t'.routes[i].status == if r.retrievedAt < at then LeftNetwork else r.status)
      && (r.network != c.network ==> SlotOnly(r, t'.routes[i]))
  {
    hide NewInstant, Run, Constraints;
    RunCompletes(c, t, at, answer);
    var t' := Run(c, t, at, answer, true).p.tables;
    assert SameIdentity(t.routes[i], t'.routes[i]);
    var r := t.routes[i];
    if r.network == c.network && Mentioned(answer, r.external) {
      var j :| 0 <= j < |answer| && answer[j].external == r.external;
      assert Reported(c, t', at, answer[j]);
      var k :| 0 <= k < |t'.routes| && IsRouteOf(c, t'.routes[k], at, answer[j], t'.routes[k].merchant);
      assert k == i by { OneOfKey(t', i, k); }
    }
  }

  lemma OneOfKey(t: Tables, i: nat, k: nat)
    requires Constraints(t) && i < |t.routes| && k < |t.routes|
    requires t.routes[i].network == t.routes[k].network && t.routes[i].external == t.routes[k].external
    ensures i == k
  {
  }

  /** Every report ends with exactly one route at this network, and nothing else is new. */
  lemma ReportsHaveRoutes(c: Config, t: Tables, at: int, answer: seq<Report>)
    requires Constraints(t) && NewInstant(c, t, at) && Distinct(answer) && Run(c, t, at, answer, true).Ok?
    ensures var q := Run(c, t, at, answer, true).p;
      && (forall j :: 0 <= j < |answer| ==> Reported(c, q.tables, at, answer[j]))
      && (forall i :: |t.routes| <= i < |q.tables.routes| ==> Stamped(c, q.tables.routes[i], answer))
      && t.merchants <= q.tables.merchants && q.created == |q.tables.merchants| - |t.merchants|
      && q.seen == |answer| && q.departed == |GoneFrom(c, t, at, answer)|
  {
    hide NewInstant, Run, Constraints;
    RunCompletes(c, t, at, answer);
  }

  /** Hand-over accounting. A retailer has at most one slot event in a run, and what the
      event says of the slot is so at the end; the routes that lost the slot are, one by
      one and in order, the ones the events name; and the two counters count them. */
  lemma HandOversAccounted(c: Config, t: Tables, at: int, answer: seq<Report>)
    requires Constraints(t) && NewInstant(c, t, at) && Distinct(answer) && Run(c, t, at, answer, true).Ok?
    ensures var q := Run(c, t, at, answer, true).p;
      && t.events <= q.tables.events
      && var news := News(t, q.tables);
      && (forall i, j :: 0 <= i < j < |news| ==> news[i].merchant != news[j].merchant)
      && (forall i :: 0 <= i < |news| ==> news[i].at == at && EventTrue(q.tables, news[i]))
      && Named(news) == q.demoted && (forall a, b :: 0 <= a < b < |q.demoted| ==> q.demoted[a] != q.demoted[b])
      && (forall i: nat :: i in q.demoted <==> i < |t.routes| && t.routes[i].preferred && !(i < |q.tables.routes| && q.tables.routes[i].preferred))
      && q.republished == Republications(news) && q.lost == Losses(news)
      && q.republished + q.lost == |q.demoted|
  {
    hide NewInstant, Run, Constraints;
    RunCompletes(c, t, at, answer);
    DemotionsCounted(News(t, Run(c, t, at, answer, true).p.tables));
  }
}

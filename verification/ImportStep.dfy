/** What writing one retailer does, and what one hand-over does. */
module ImportStep {
  import opened Options
  import opened Catalogue
  import opened Import

  /** r' is r but for the published slot. */
  predicate SlotOnly(r: Route, r': Route) { r' == r.(preferred := r'.preferred) }

  /** Nothing announced for this retailer at this instant. */
  ghost predicate Quiet(t: Tables, merchant: nat, at: int) {
    forall i :: 0 <= i < |t.events| ==> t.events[i].merchant != merchant || t.events[i].at != at
  }

  /** What an event says of its retailer's slot is so. */
  ghost predicate EventTrue(t: Tables, e: SlotEvent) {
    && (e.previous.Some? ==> e.previous.value < |t.routes| && t.routes[e.previous.value].merchant == e.merchant)
    && (e.Unpublished? ==> !HasPublishable(t, e.merchant))
    && (e.Published? ==> e.route < |t.routes| && t.routes[e.route].merchant == e.merchant && t.routes[e.route].preferred)
    && (e.Published? ==> forall i :: 0 <= i < |t.routes| && t.routes[i].merchant == e.merchant && t.routes[i].Publishable() ==>
          t.routes[e.route].retrievedAt < t.routes[i].retrievedAt || (t.routes[e.route].retrievedAt == t.routes[i].retrievedAt && e.route <= i))
  }

  /** The routes of every retailer but this one are the same. */
  ghost predicate SameElsewhere(t: Tables, t': Tables, merchant: nat) {
    && (forall i :: 0 <= i < |t.routes| && t.routes[i].merchant != merchant ==> i < |t'.routes| && t'.routes[i] == t.routes[i])
    && (forall i :: 0 <= i < |t'.routes| && t'.routes[i].merchant != merchant ==> i < |t.routes| && t'.routes[i] == t.routes[i])
  }

  lemma TrueElsewhere(t: Tables, t': Tables, merchant: nat, e: SlotEvent)
    requires SameElsewhere(t, t', merchant) && e.merchant != merchant && EventTrue(t, e)
    ensures EventTrue(t', e)
  {
  }

  /** A movement of the slot has been announced and counted as what it was. */
  ghost predicate Accounted(p: Progress, p': Progress, merchant: nat, previous: Option<nat>, at: int) {
    if |p'.tables.events| <= |p.tables.events| then
      p'.tables.events == p.tables.events && previous.None? && p'.republished == p.republished && p'.lost == p.lost
    else
      var e := p'.tables.events[|p'.tables.events| - 1];
      && p'.tables.events == p.tables.events + [e] && e.merchant == merchant && e.at == at && e.previous == previous
      && p'.republished == p.republished + (if e.Published? && previous.Some? then 1 else 0)
      && p'.lost == p.lost + (if e.Unpublished? then 1 else 0)
      && (e.Unpublished? ==> previous.Some?) && EventTrue(p'.tables, e)
  }

  /** Nothing but the published slot of this retailer has changed. */
  ghost predicate SlotMoved(t: Tables, t': Tables, merchant: nat) {
    && t'.merchants == t.merchants && |t'.routes| == |t.routes|
    && (forall i :: 0 <= i < |t.routes| ==> SlotOnly(t.routes[i], t'.routes[i]) && (t.routes[i].preferred ==> t'.routes[i].preferred))
    && (forall i :: 0 <= i < |t.routes| && t.routes[i].merchant != merchant ==> t'.routes[i] == t.routes[i])
  }

  lemma QuietIsNew(t: Tables, e: SlotEvent)
    requires Quiet(t, e.merchant, e.at)
    ensures !Announced(t, e)
  {
  }

  lemma SameEventsQuiet(t: Tables, t': Tables, merchant: nat, at: int)
    requires Quiet(t, merchant, at) && t'.events == t.events
    ensures Quiet(t', merchant, at)
  {
  }

  /** A hand-over to a retailer with nothing published: it publishes its earliest
      publishable route if there is one, and the movement is announced. */
  lemma HandOverDoes(p: Progress, merchant: nat, previous: Option<nat>, at: int)
    requires previous.Some? ==> previous.value < |p.tables.routes| && p.tables.routes[previous.value].merchant == merchant
    requires Constraints(p.tables) && !HasPreferred(p.tables, merchant) && Quiet(p.tables, merchant, at)
    ensures HandOver(p, merchant, previous, at).Ok?
    ensures var t, p' := p.tables, HandOver(p, merchant, previous, at).p;
      && Constraints(p'.tables) && SlotMoved(t, p'.tables, merchant)
      && (HasPublishable(p'.tables, merchant) ==> HasPreferred(p'.tables, merchant))
      && Accounted(p, p', merchant, previous, at)
      && p'.demoted == p.demoted && p'.created == p.created && p'.seen == p.seen && p'.departed == p.departed
      && (!HasPublishable(t, merchant) && previous.None? ==> p' == p)
  {
    hide Constraints, Announced, Quiet;
    var t := p.tables;
    QuietIsNew(t, SlotEvent.Unpublished(merchant, previous, at));
    match Promotable(t, merchant) {
      case None =>
        if previous.Some? { AnnounceKeeps(t, SlotEvent.Unpublished(merchant, previous, at)); }
      case Some(i) =>
        PreferKeeps(t, merchant);
        assert Quiet(Prefer(t, i), merchant, at) by { SameEventsQuiet(t, Prefer(t, i), merchant, at); }
        QuietIsNew(Prefer(t, i), SlotEvent.Published(merchant, i, previous, at));
        AnnounceKeeps(Prefer(t, i), SlotEvent.Published(merchant, i, previous, at));
        assert Prefer(t, i).routes[i].preferred;
    }
  }

  /** Whom a report resolves to: the retailer of the network's own id, or one with no
      route at this network yet. */
  lemma ResolvesTo(c: Config, t: Tables, r: Report)
    requires Constraints(t)
    ensures match Resolve(c, t, r)
      case Known(m) => m < |t.merchants| &&
        (match FindRoute(t.routes, c.network, r.external)
         case Some(i) => t.routes[i].merchant == m
         case None => !HasRouteAt(t, m, c.network))
      case Newcomer(slug) => FindRoute(t.routes, c.network, r.external).None? && FindMerchant(t.merchants, slug).None? && SlugFormed(slug)
      case Unresolved(error) => error in {RouteConflict, NoSlug}
  {
    hide SlugFormed;
  }

  lemma {:induction false} FindRouteAppend(routes: seq<Route>, row: Route)
    ensures FindRoute(routes + [row], row.network, row.external) == Some(|routes|)
  {
    assert (routes + [row])[|routes|] == row;
  }

  /** A key that occurs once is found where it is. */
  lemma FindRouteIs(t: Tables, i: nat)
    requires ExternalsUnique(t) && i < |t.routes|
    ensures FindRoute(t.routes, t.routes[i].network, t.routes[i].external) == Some(i)
  {
  }

  /** The tables just before the hand-over. */
  ghost predicate Written(c: Config, t: Tables, t3: Tables, merchant: nat, at: int, r: Report, k: nat) {
    && Constraints(t3) && t.merchants <= t3.merchants && merchant < |t3.merchants| && t3.events == t.events
    && |t.routes| <= |t3.routes| && k < |t3.routes|
    && |t3.routes| == (if k < |t.routes| then |t.routes| else |t.routes| + 1)
    && t3.routes[k].merchant == merchant && t3.routes[k].network == c.network && t3.routes[k].external == r.external
    && t3.routes[k].retrievedAt == at && t3.routes[k].status == r.status
    && (if k < |t.routes|
        then t3.routes[k] == t.routes[k].(retrievedAt := at, status := r.status, preferred := t.routes[k].preferred && r.status == Active)
        else t3.routes[k].brand == c.brand && t3.routes[k].canAttribute)
    && (forall i :: 0 <= i < |t.routes| && i != k ==> t3.routes[i] == t.routes[i])
  }

  /** Withdrawing first, then writing: the upsert is never refused, and it leaves the
      retailer with a published route exactly when it had one left or took a new one. */
  lemma WithdrawThenUpsert(c: Config, t: Tables, at: int, r: Report, merchant: nat)
    requires Constraints(t) && merchant < |t.merchants|
    requires match FindRoute(t.routes, c.network, r.external)
      case Some(i) => t.routes[i].merchant == merchant
      case None => !HasRouteAt(t, merchant, c.network)
    ensures var t2, t3 := AfterWithdrawal(c, t, r), Rewritten(c, t, at, r, merchant);
      && FindRoute(t3.routes, c.network, r.external).Some?
      && Written(c, t, t3, merchant, at, r, FindRoute(t3.routes, c.network, r.external).value)
      && t3.merchants == t.merchants
      && (HasPreferred(t3, merchant) <==> HasPreferred(t2, merchant) || IsPublished(t3, c.network, r.external))
      && (Withdrawn(c, t, r).Some? ==> !HasPreferred(t3, merchant) && Withdrawn(c, t, r) == FindRoute(t3.routes, c.network, r.external))
  {
    match FindRoute(t.routes, c.network, r.external) {
      case Some(i) => RewritesRoute(c, t, at, r, i);
      case None => AddsRoute(c, t, at, r, merchant);
    }
  }

  lemma RewritesRoute(c: Config, t: Tables, at: int, r: Report, i: nat)
    requires Constraints(t) && FindRoute(t.routes, c.network, r.external) == Some(i)
    ensures var t2, t3 := AfterWithdrawal(c, t, r), Rewritten(c, t, at, r, t.routes[i].merchant);
      && FindRoute(t3.routes, c.network, r.external) == Some(i)
      && Written(c, t, t3, t.routes[i].merchant, at, r, i) && t3.merchants == t.merchants
      && (HasPreferred(t3, t.routes[i].merchant) <==> HasPreferred(t2, t.routes[i].merchant))
      && (IsPublished(t3, c.network, r.external) ==> HasPreferred(t2, t.routes[i].merchant))
      && (Withdrawn(c, t, r).Some? ==> !HasPreferred(t2, t.routes[i].merchant) && Withdrawn(c, t, r) == Some(i))
  {
    var t2, m := AfterWithdrawal(c, t, r), t.routes[i].merchant;
    WithdrawalEmpties(c, t, r, i);
    hide AfterWithdrawal, Withdrawn, HasRouteAt, HasPreferred, Demotable, IsPublished;
    var row := RowOf(c, t2, at, r, m);
    FindRouteIs(t2, i);
    UpsertKeeps(t2, row);
    var t3 := UpsertRoute(t2, row);
    FindRouteIs(t3, i);
    hide Constraints, RowOf;
    PreferredAlike(t2, t3, m);
    if IsPublished(t3, c.network, r.external) { PublishedIs(t3, c.network, r.external); }
  }

  /** Withdrawing touches one flag, and leaves the retailer with nothing published. */
  lemma WithdrawalEmpties(c: Config, t: Tables, r: Report, i: nat)
    requires Constraints(t) && FindRoute(t.routes, c.network, r.external) == Some(i)
    ensures var t2 := AfterWithdrawal(c, t, r);
      && Constraints(t2) && t2 == t.(routes := t.routes[i := t2.routes[i]]) && SlotOnly(t.routes[i], t2.routes[i])
      && (t2.routes[i].preferred ==> r.status == Active)
      && (Withdrawn(c, t, r).Some? ==> !HasPreferred(t2, t.routes[i].merchant) && Withdrawn(c, t, r) == Some(i))
  {
    hide HasRouteAt;
    if Withdrawn(c, t, r).Some? { UnpreferKeeps(t, i); }
  }

  lemma PreferredAlike(t: Tables, t': Tables, merchant: nat)
    requires |t.routes| == |t'.routes|
    requires forall j :: 0 <= j < |t.routes| ==> t.routes[j].preferred == t'.routes[j].preferred && t.routes[j].merchant == t'.routes[j].merchant
    ensures HasPreferred(t, merchant) <==> HasPreferred(t', merchant)
  {
    if HasPreferred(t, merchant) {
      var j :| 0 <= j < |t.routes| && t.routes[j].merchant == merchant && t.routes[j].preferred;
      assert t'.routes[j].preferred;
    }
  }

  lemma PublishedIs(t: Tables, network: string, external: string)
    requires IsPublished(t, network, external)
    ensures FindRoute(t.routes, network, external).Some? && HasPreferred(t, t.routes[FindRoute(t.routes, network, external).value].merchant)
  {
  }

  lemma AddsRoute(c: Config, t: Tables, at: int, r: Report, merchant: nat)
    requires Constraints(t) && merchant < |t.merchants|
    requires FindRoute(t.routes, c.network, r.external).None? && !HasRouteAt(t, merchant, c.network)
    ensures var t3 := Rewritten(c, t, at, r, merchant);
      && AfterWithdrawal(c, t, r) == t && Withdrawn(c, t, r).None?
      && FindRoute(t3.routes, c.network, r.external) == Some(|t.routes|)
      && Written(c, t, t3, merchant, at, r, |t.routes|) && t3.merchants == t.merchants
      && (HasPreferred(t3, merchant) <==> HasPreferred(t, merchant) || IsPublished(t3, c.network, r.external))
  {
    var row := RowOf(c, t, at, r, merchant);
    UpsertKeeps(t, row);
    FindRouteAppend(t.routes, row);
    hide Constraints, HasRouteAt;
    var t3 := Rewritten(c, t, at, r, merchant);
    assert t3.routes == t.routes + [row];
    if row.preferred { assert t3.routes[|t.routes|].preferred; }
    if HasPreferred(t, merchant) { 
      var j :| 0 <= j < |t.routes| && t.routes[j].merchant == merchant && t.routes[j].preferred;
      assert t3.routes[j].preferred;
    }
  }

  /** What writing one report has done to the tables: k is its route, merchant its retailer. */
  ghost predicate WroteTables(c: Config, t: Tables, t': Tables, at: int, r: Report, merchant: nat, k: nat) {
    && t.merchants <= t'.merchants && merchant < |t'.merchants|
    && |t.routes| <= |t'.routes| && k < |t'.routes| == (if k < |t.routes| then |t.routes| else |t.routes| + 1)
    && IsRouteOf(c, t'.routes[k], at, r, merchant)
    && (if k < |t.routes|
        then SlotOnly(t.routes[k].(retrievedAt := at, status := r.status), t'.routes[k])
        else t'.routes[k].brand == c.brand && t'.routes[k].canAttribute)
    && (forall i :: 0 <= i < |t.routes| && i != k ==> SlotOnly(t.routes[i], t'.routes[i]))
    && (forall i :: 0 <= i < |t.routes| && t.routes[i].preferred && (i != k || r.status == Active) ==> t'.routes[i].preferred)
    && (forall i :: 0 <= i < |t'.routes| && t'.routes[i].merchant != merchant ==> i < |t.routes| && t'.routes[i] == t.routes[i])
  }

  /** What writing one report has done. */
  ghost predicate Wrote(c: Config, p: Progress, p': Progress, at: int, r: Report, merchant: nat, k: nat) {
    && Constraints(p'.tables) && WroteTables(c, p.tables, p'.tables, at, r, merchant, k)
    && p'.created == p.created + (|p'.tables.merchants| - |p.tables.merchants|) && p'.seen == p.seen + 1 && p'.departed == p.departed
    && (HasPublishable(p'.tables, merchant) ==> HasPreferred(p'.tables, merchant))
    && Accounted(p, p', merchant, Withdrawn(c, p.tables, r), at)
    && p'.demoted == Extended(p.demoted, Withdrawn(c, p.tables, r))
  }

  predicate IsRouteOf(c: Config, row: Route, at: int, r: Report, merchant: nat) {
    && row.merchant == merchant && row.network == c.network && row.external == r.external
    && row.retrievedAt == at && row.status == r.status
  }

  /** The retailer of a report has no other route here, and none at all if it is new. */
  lemma MerchantSettled(c: Config, p: Progress, r: Report)
    requires Constraints(p.tables) && !Resolve(c, p.tables, r).Unresolved?
    ensures Settled(c, p, r).Ok?
    ensures var p1, m := Settled(c, p, r).p, MerchantOf(c, p.tables, r);
      && Constraints(p1.tables) && m < |p1.tables.merchants| && p.tables.merchants <= p1.tables.merchants
      && p1 == p.(tables := p.tables.(merchants := p1.tables.merchants), created := p.created + (|p1.tables.merchants| - |p.tables.merchants|))
      && match FindRoute(p1.tables.routes, c.network, r.external)
         case Some(i) => p1.tables.routes[i].merchant == m
         case None => !HasRouteAt(p1.tables, m, c.network)
  {
    ResolvesTo(c, p.tables, r);
    match Resolve(c, p.tables, r) {
      case Known(_) =>
      case Newcomer(slug) => CreateKeeps(p.tables, slug);
    }
  }

  /** writeRoute never trips a constraint, and does exactly this. */
  lemma WriteRouteDoes(c: Config, p: Progress, at: int, r: Report)
    requires Constraints(p.tables) && !Resolve(c, p.tables, r).Unresolved?
    requires Quiet(p.tables, MerchantOf(c, p.tables, r), at)
    ensures WriteRoute(c, p, at, r).Ok?
    ensures var p' := WriteRoute(c, p, at, r).p;
      && FindRoute(p'.tables.routes, c.network, r.external).Some?
      && Wrote(c, p, p', at, r, MerchantOf(c, p.tables, r), FindRoute(p'.tables.routes, c.network, r.external).value)
  {
    var m, p1 := MerchantOf(c, p.tables, r), Settled(c, p, r).p;
    MerchantSettled(c, p, r);
    hide Constraints, Resolve, HasRouteAt, Upserted, Rewritten, AfterWithdrawal, HasPublishable, Demotable, Withdrawn, HandOver, Settled, MerchantOf;
    WithdrawThenUpsert(c, p1.tables, at, r, m);
    SameWithdrawal(c, p.tables, p1.tables, r);
    UpsertedCounts(c, p1, at, r, m);
    var p3 := Upserted(c, p1, at, r, m);
    var k := FindRoute(p3.tables.routes, c.network, r.external).value;
    WrittenEarlier(c, p.tables, p1.tables, p3.tables, m, at, r, k);
    hide Written, Wrote, WroteTables;
    WriteFinishes(c, p, p3, at, r, m, k);
    assert WriteRoute(c, p, at, r) == Finish(p3, m, Withdrawn(c, p.tables, r), at);
  }

  lemma WrittenEarlier(c: Config, t: Tables, t1: Tables, t3: Tables, merchant: nat, at: int, r: Report, k: nat)
    requires t1 == t.(merchants := t1.merchants) && t.merchants <= t1.merchants
    requires Written(c, t1, t3, merchant, at, r, k)
    ensures Written(c, t, t3, merchant, at, r, k)
  {
    hide Constraints;
  }

  /** The last of writeRoute: hand the slot over if nothing is in it. */
  function Finish(p: Progress, merchant: nat, withdrawn: Option<nat>, at: int): Outcome {
    if HasPreferred(p.tables, merchant) then Ok(p) else HandOver(p, merchant, withdrawn, at)
  }

  lemma WriteFinishes(c: Config, p: Progress, p3: Progress, at: int, r: Report, merchant: nat, k: nat)
    requires Written(c, p.tables, p3.tables, merchant, at, r, k)
    requires p3.created == p.created + (|p3.tables.merchants| - |p.tables.merchants|) && p3.seen == p.seen + 1 && p3.departed == p.departed
    requires p3.republished == p.republished && p3.lost == p.lost
    requires p3.demoted == Extended(p.demoted, Withdrawn(c, p.tables, r))
    requires Withdrawn(c, p.tables, r).Some? ==> !HasPreferred(p3.tables, merchant) && Withdrawn(c, p.tables, r) == Some(k)
    requires Quiet(p.tables, merchant, at)
    ensures var o := Finish(p3, merchant, Withdrawn(c, p.tables, r), at);
      && o.Ok? && Wrote(c, p, o.p, at, r, merchant, k)
      && FindRoute(o.p.tables.routes, c.network, r.external) == Some(k)
  {
    hide Constraints, Withdrawn, EventTrue, HasPublishable;
    if HasPreferred(p3.tables, merchant) {
      SlotMovedOn(c, p.tables, p3.tables, p3.tables, at, r, merchant, k);
    } else {
      HandOverDoes(p3, merchant, Withdrawn(c, p.tables, r), at);
      SlotMovedOn(c, p.tables, p3.tables, HandOver(p3, merchant, Withdrawn(c, p.tables, r), at).p.tables, at, r, merchant, k);
      hide HandOver, Written, SlotMoved, WroteTables;
    }
  }

  lemma SlotMovedOn(c: Config, t: Tables, t3: Tables, t': Tables, at: int, r: Report, merchant: nat, k: nat)
    requires Written(c, t, t3, merchant, at, r, k) && SlotMoved(t3, t', merchant) && Constraints(t')
    ensures WroteTables(c, t, t', at, r, merchant, k)
    ensures FindRoute(t'.routes, c.network, r.external) == Some(k)
  {
    assert SlotOnly(t3.routes[k], t'.routes[k]);
    KeptKey(t', k);
    hide Constraints;
  }

  lemma SameWithdrawal(c: Config, t: Tables, t': Tables, r: Report)
    requires t.routes == t'.routes
    ensures Withdrawn(c, t, r) == Withdrawn(c, t', r)
  {
  }

  lemma UpsertedCounts(c: Config, p: Progress, at: int, r: Report, merchant: nat)
    ensures var p' := Upserted(c, p, at, r, merchant);
      p' == p.(tables := Rewritten(c, p.tables, at, r, merchant), seen := p.seen + 1, demoted := Extended(p.demoted, Withdrawn(c, p.tables, r)))
  {
  }

  function Extended(ids: seq<nat>, id: Option<nat>): seq<nat> { match id case Some(i) => ids + [i] case None => ids }

  lemma KeptKey(t: Tables, k: nat)
    requires Constraints(t) && k < |t.routes|
    ensures FindRoute(t.routes, t.routes[k].network, t.routes[k].external) == Some(k)
  {
    FindRouteIs(t, k);
  }
}

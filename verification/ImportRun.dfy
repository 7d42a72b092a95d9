/** The invariant of an import between two reports. */
module ImportRun {
  import opened Options
  import opened Catalogue
  import opened Import
  import opened ImportStep

  predicate Mentioned(answer: seq<Report>, external: string) {
    exists j :: 0 <= j < |answer| && answer[j].external == external
  }

  predicate Distinct(answer: seq<Report>) {
    forall i, j :: 0 <= i < j < |answer| ==> answer[i].external != answer[j].external
  }

  /** No route at this network and no event carries the run's instant yet. */
  ghost predicate NewInstant(c: Config, t: Tables, at: int) {
    && (forall i :: 0 <= i < |t.routes| && t.routes[i].network == c.network ==> t.routes[i].retrievedAt != at)
    && (forall i :: 0 <= i < |t.events| ==> t.events[i].at != at)
  }

  // ---- routes ----

  /** A rewritten route keeps its retailer, its key, its brand and its terms. */
  predicate SameIdentity(r: Route, r': Route) {
    r' == r.(retrievedAt := r'.retrievedAt, status := r'.status, preferred := r'.preferred)
  }

  predicate Stamped(c: Config, row: Route, answer: seq<Report>) {
    row.network == c.network && Mentioned(answer, row.external)
  }

  ghost predicate Reported(c: Config, t: Tables, at: int, r: Report) {
    exists i :: 0 <= i < |t.routes| && IsRouteOf(c, t.routes[i], at, r, t.routes[i].merchant)
  }

  /** Every report has its route, stamped and with its status; a route is stamped only
      for a report, and any other is as it was but for its slot. */
  ghost predicate RoutesSoFar(c: Config, t0: Tables, t: Tables, at: int, answer: seq<Report>) {
    && t0.merchants <= t.merchants && |t0.routes| <= |t.routes|
    && (forall i :: 0 <= i < |t0.routes| ==> SameIdentity(t0.routes[i], t.routes[i]))
    && (forall i :: 0 <= i < |t.routes| ==>
          if Stamped(c, t.routes[i], answer) then t.routes[i].retrievedAt == at
          else i < |t0.routes| && SlotOnly(t0.routes[i], t.routes[i]))
    && (forall i :: |t0.routes| <= i < |t.routes| ==> t.routes[i].brand == c.brand && t.routes[i].canAttribute)
    && (forall j :: 0 <= j < |answer| ==> Reported(c, t, at, answer[j]))
  }

  lemma MentionedNext(answer: seq<Report>, r: Report, external: string)
    ensures Mentioned(answer + [r], external) <==> Mentioned(answer, external) || r.external == external
  {
    var next := answer + [r];
    if Mentioned(answer, external) {
      var j :| 0 <= j < |answer| && answer[j].external == external;
      assert next[j].external == external;
    }
    assert next[|answer|] == r;
  }

  lemma RoutesNext(c: Config, t0: Tables, t: Tables, t': Tables, at: int, answer: seq<Report>, r: Report, merchant: nat, k: nat)
    requires RoutesSoFar(c, t0, t, at, answer) && ExternalsUnique(t') && WroteTables(c, t, t', at, r, merchant, k)
    requires !Mentioned(answer, r.external)
    ensures RoutesSoFar(c, t0, t', at, answer + [r])
  {
    var next := answer + [r];
    assert |t'.routes| >= |t.routes|;
    forall i | 0 <= i < |t'.routes|
      ensures if Stamped(c, t'.routes[i], next) then t'.routes[i].retrievedAt == at
              else i < |t0.routes| && SlotOnly(t0.routes[i], t'.routes[i])
    {
      MentionedNext(answer, r, t'.routes[i].external);
      if i != k {
        assert SlotOnly(t.routes[i], t'.routes[i]);
        assert !(t'.routes[i].network == c.network && t'.routes[i].external == r.external);
        assert Stamped(c, t'.routes[i], next) == Stamped(c, t.routes[i], answer);
      }
    }
    forall j | 0 <= j < |next| ensures Reported(c, t', at, next[j]) {
      if j < |answer| {
        assert Reported(c, t, at, answer[j]);
        var i :| 0 <= i < |t.routes| && IsRouteOf(c, t.routes[i], at, answer[j], t.routes[i].merchant);
        assert answer[j].external != r.external;
        assert i != k && SlotOnly(t.routes[i], t'.routes[i]);
        assert IsRouteOf(c, t'.routes[i], at, next[j], t'.routes[i].merchant);
      } else {
        assert IsRouteOf(c, t'.routes[k], at, r, t'.routes[k].merchant);
      }
    }
  }

  // ---- retailers seen, and their published slots ----

  /** A retailer this run has written. */
  ghost predicate Seen(c: Config, t: Tables, at: int, merchant: nat) {
    exists i :: 0 <= i < |t.routes| && t.routes[i].merchant == merchant && t.routes[i].network == c.network && t.routes[i].retrievedAt == at
  }

  ghost predicate Publishing(t: Tables, merchant: nat) { HasPublishable(t, merchant) ==> HasPreferred(t, merchant) }

  /** Retailers not yet seen are untouched; those seen publish if they can. */
  ghost predicate SlotsSoFar(c: Config, t0: Tables, t: Tables, at: int) {
    && |t0.routes| <= |t.routes|
    && (forall i :: 0 <= i < |t0.routes| && !Seen(c, t, at, t.routes[i].merchant) ==> t.routes[i] == t0.routes[i])
    && (forall m: nat :: Seen(c, t, at, m) ==> Publishing(t, m))
  }

  /** The retailer of a report not yet read has not been seen. */
  lemma NotYetSeen(c: Config, t0: Tables, t: Tables, at: int, answer: seq<Report>, r: Report)
    requires Constraints(t) && RoutesSoFar(c, t0, t, at, answer) && NewInstant(c, t0, at) && !Mentioned(answer, r.external)
    requires !Resolve(c, t, r).Unresolved?
    ensures !Seen(c, t, at, MerchantOf(c, t, r))
    ensures FindRoute(t.routes, c.network, r.external).Some? ==> FindRoute(t.routes, c.network, r.external).value < |t0.routes|
  {
    ResolvesTo(c, t, r);
    hide Resolve;
    var m := MerchantOf(c, t, r);
    forall i | 0 <= i < |t.routes| && t.routes[i].merchant == m && t.routes[i].network == c.network
      ensures t.routes[i].retrievedAt != at
    {
      assert FindRoute(t.routes, c.network, r.external) == Some(i);
      assert !Stamped(c, t.routes[i], answer);
      assert SlotOnly(t0.routes[i], t.routes[i]);
    }
    if FindRoute(t.routes, c.network, r.external).Some? {
      assert !Stamped(c, t.routes[FindRoute(t.routes, c.network, r.external).value], answer);
    }
  }

  lemma SeenNext(c: Config, t: Tables, t': Tables, at: int, r: Report, merchant: nat, k: nat, m: nat)
    requires WroteTables(c, t, t', at, r, merchant, k)
    ensures Seen(c, t', at, m) <==> Seen(c, t, at, m) || m == merchant
  {
    if Seen(c, t, at, m) && m != merchant {
      var i :| 0 <= i < |t.routes| && t.routes[i].merchant == m && t.routes[i].network == c.network && t.routes[i].retrievedAt == at;
      RouteElsewhere(c, t, t', at, r, merchant, k, i);
    }
  }

  lemma RouteElsewhere(c: Config, t: Tables, t': Tables, at: int, r: Report, merchant: nat, k: nat, i: nat)
    requires WroteTables(c, t, t', at, r, merchant, k) && i < |t.routes| && t.routes[i].merchant != merchant
    ensures t'.routes[i] == t.routes[i]
  {
    if i != k { assert SlotOnly(t.routes[i], t'.routes[i]); }
  }

  lemma PublishingElsewhere(c: Config, t: Tables, t': Tables, at: int, r: Report, merchant: nat, k: nat, m: nat)
    requires WroteTables(c, t, t', at, r, merchant, k) && m != merchant && Publishing(t, m)
    ensures Publishing(t', m)
  {
    if HasPublishable(t', m) {
      var i :| 0 <= i < |t'.routes| && t'.routes[i].merchant == m && t'.routes[i].Publishable();
      assert t.routes[i] == t'.routes[i];
      var j :| 0 <= j < |t.routes| && t.routes[j].merchant == m && t.routes[j].preferred;
      RouteElsewhere(c, t, t', at, r, merchant, k, j);
      assert t'.routes[j].preferred;
    }
  }

  lemma SlotsNext(c: Config, t0: Tables, t: Tables, t': Tables, at: int, r: Report, merchant: nat, k: nat)
    requires SlotsSoFar(c, t0, t, at) && WroteTables(c, t, t', at, r, merchant, k)
    requires Publishing(t', merchant)
    ensures SlotsSoFar(c, t0, t', at)
  {
    hide Seen, Publishing;
    forall m: nat ensures Seen(c, t', at, m) <==> Seen(c, t, at, m) || m == merchant {
      SeenNext(c, t, t', at, r, merchant, k, m);
    }
    forall m: nat | Seen(c, t', at, m) ensures Publishing(t', m) {
      if m != merchant { PublishingElsewhere(c, t, t', at, r, merchant, k, m); }
    }
    forall i | 0 <= i < |t0.routes| && !Seen(c, t', at, t'.routes[i].merchant) ensures t'.routes[i] == t0.routes[i] {
      assert t'.routes[i].merchant != merchant;
    }
  }

  // ---- events and counts ----

  /** The demotions the events name, in order. */
  function Named(events: seq<SlotEvent>): seq<nat> {
    if |events| == 0 then [] else Extended(Named(events[..|events| - 1]), events[|events| - 1].previous)
  }

  function Republications(events: seq<SlotEvent>): nat {
    if |events| == 0 then 0
    else Republications(events[..|events| - 1]) + if events[|events| - 1].Published? && events[|events| - 1].previous.Some? then 1 else 0
  }

  function Losses(events: seq<SlotEvent>): nat {
    if |events| == 0 then 0
    else Losses(events[..|events| - 1]) + if events[|events| - 1].Unpublished? then 1 else 0
  }

  function News(t0: Tables, t: Tables): seq<SlotEvent>
    requires |t0.events| <= |t.events|
  {
    t.events[|t0.events|..]
  }

  /** What was announced is at this instant, once per retailer, and about retailers
      in `touched`; the counters count it. */
  ghost predicate EventsSoFar(t0: Tables, p: Progress, at: int, touched: iset<nat>) {
    && t0.events <= p.tables.events
    && (forall i :: 0 <= i < |News(t0, p.tables)| ==> News(t0, p.tables)[i].at == at && News(t0, p.tables)[i].merchant in touched)
    && (forall i, j :: 0 <= i < j < |News(t0, p.tables)| ==> News(t0, p.tables)[i].merchant != News(t0, p.tables)[j].merchant)
    && (forall i :: 0 <= i < |News(t0, p.tables)| && News(t0, p.tables)[i].Unpublished? ==> News(t0, p.tables)[i].previous.Some?)
    && (forall i :: 0 <= i < |News(t0, p.tables)| ==> EventTrue(p.tables, News(t0, p.tables)[i]))
    && p.republished == Republications(News(t0, p.tables)) && p.lost == Losses(News(t0, p.tables))
  }

  lemma StillQuiet(c: Config, t0: Tables, p: Progress, at: int, touched: iset<nat>, merchant: nat)
    requires NewInstant(c, t0, at) && EventsSoFar(t0, p, at, touched) && merchant !in touched
    ensures Quiet(p.tables, merchant, at)
  {
    forall i | 0 <= i < |p.tables.events|
      ensures p.tables.events[i].merchant != merchant || p.tables.events[i].at != at
    {
      if i >= |t0.events| { assert p.tables.events[i] == News(t0, p.tables)[i - |t0.events|]; }
    }
  }

  lemma TrueStill(t: Tables, t': Tables, merchant: nat, news: seq<SlotEvent>)
    requires SameElsewhere(t, t', merchant)
    requires forall i :: 0 <= i < |news| ==> news[i].merchant != merchant && EventTrue(t, news[i])
    ensures forall i :: 0 <= i < |news| ==> EventTrue(t', news[i])
  {
    hide EventTrue, SameElsewhere;
    forall i | 0 <= i < |news| ensures EventTrue(t', news[i]) { TrueElsewhere(t, t', merchant, news[i]); }
  }

  lemma EventsNext(t0: Tables, p: Progress, p': Progress, at: int, touched: iset<nat>, merchant: nat, previous: Option<nat>)
    requires EventsSoFar(t0, p, at, touched) && merchant !in touched && Accounted(p, p', merchant, previous, at)
    requires SameElsewhere(p.tables, p'.tables, merchant)
    ensures EventsSoFar(t0, p', at, touched + iset{merchant})
    ensures Named(News(t0, p'.tables)) == Extended(Named(News(t0, p.tables)), previous)
  {
    hide EventTrue, SameElsewhere, Named, Republications, Losses;
    var news := News(t0, p.tables);
    TrueStill(p.tables, p'.tables, merchant, news);
    if |p'.tables.events| > |p.tables.events| {
      var e := p'.tables.events[|p'.tables.events| - 1];
      assert News(t0, p'.tables) == news + [e];
      CountsNext(news, e);
    } else {
      assert News(t0, p'.tables) == news;
    }
  }

  lemma CountsNext(news: seq<SlotEvent>, e: SlotEvent)
    ensures Named(news + [e]) == Extended(Named(news), e.previous)
    ensures Republications(news + [e]) == Republications(news) + if e.Published? && e.previous.Some? then 1 else 0
    ensures Losses(news + [e]) == Losses(news) + if e.Unpublished? then 1 else 0
  {
    assert (news + [e])[..|news|] == news;
  }

  lemma {:induction false} DemotionsCounted(events: seq<SlotEvent>)
    requires forall i :: 0 <= i < |events| && events[i].Unpublished? ==> events[i].previous.Some?
    ensures |Named(events)| == Republications(events) + Losses(events)
  {
    if |events| > 0 { DemotionsCounted(events[..|events| - 1]); }
  }

  /** The demotions are the routes that were published and no longer are. */
  ghost predicate DemotionsSoFar(t0: Tables, p: Progress) {
    && |t0.routes| <= |p.tables.routes|
    && (forall i: nat :: i in p.demoted <==> i < |t0.routes| && t0.routes[i].preferred && !p.tables.routes[i].preferred)
    && (forall a, b :: 0 <= a < b < |p.demoted| ==> p.demoted[a] != p.demoted[b])
  }

  lemma DemotionsNext(c: Config, t0: Tables, p: Progress, p': Progress, at: int, r: Report, merchant: nat, k: nat)
    requires Constraints(p.tables) && DemotionsSoFar(t0, p) && SlotsSoFar(c, t0, p.tables, at)
    requires !Seen(c, p.tables, at, merchant) && Wrote(c, p, p', at, r, merchant, k)
    requires FindRoute(p.tables.routes, c.network, r.external) == (if k < |p.tables.routes| then Some(k) else None)
    requires k < |p.tables.routes| ==> k < |t0.routes|
    ensures DemotionsSoFar(t0, p')
  {
    hide Accounted, Seen, SlugsFormed, SlugsUnique, RoutesReferMerchants, ExternalsUnique, OneRoutePerNetwork, KeysUnique;
    var t, t' := p.tables, p'.tables;
    forall i: nat
      ensures i in p'.demoted <==> i < |t0.routes| && t0.routes[i].preferred && !t'.routes[i].preferred
    {
      if i < |t.routes| && i != k { SlotElsewhere(c, p, p', at, r, merchant, k, i); }
    }
  }

  /** Writing k changes whether another route is published only to publish it, and then
      only if it was never demoted. */
  lemma SlotElsewhere(c: Config, p: Progress, p': Progress, at: int, r: Report, merchant: nat, k: nat, i: nat)
    requires Wrote(c, p, p', at, r, merchant, k) && i < |p.tables.routes| && i != k
    ensures p.tables.routes[i].preferred ==> p'.tables.routes[i].preferred
    ensures p.tables.routes[i].merchant != merchant ==> p'.tables.routes[i] == p.tables.routes[i]
  {
    hide Constraints, Accounted, HasPublishable, HasPreferred;
    if p.tables.routes[i].merchant != merchant { RouteElsewhere(c, p.tables, p'.tables, at, r, merchant, k, i); }
  }

  // ---- the fold ----

  ghost function Touched(c: Config, t: Tables, at: int): iset<nat> { iset m: nat | Seen(c, t, at, m) }

  /** Everything that holds once `answer` has been written. */
  ghost predicate Midway(c: Config, t0: Tables, p: Progress, at: int, answer: seq<Report>) {
    && Constraints(p.tables)
    && RoutesSoFar(c, t0, p.tables, at, answer)
    && SlotsSoFar(c, t0, p.tables, at)
    && EventsSoFar(t0, p, at, Touched(c, p.tables, at))
    && DemotionsSoFar(t0, p) && p.demoted == Named(News(t0, p.tables))
    && p.created == |p.tables.merchants| - |t0.merchants| && p.seen == |answer| && p.departed == 0
  }

  lemma MidwayStarts(c: Config, t0: Tables, at: int)
    requires Constraints(t0) && NewInstant(c, t0, at)
    ensures Midway(c, t0, Start(t0), at, [])
  {
    hide Constraints;
    assert News(t0, t0) == [];
  }

  lemma MidwayStep(c: Config, t0: Tables, p: Progress, at: int, answer: seq<Report>, r: Report)
    requires NewInstant(c, t0, at) && Midway(c, t0, p, at, answer) && !Mentioned(answer, r.external)
    requires !Resolve(c, p.tables, r).Unresolved?
    ensures WriteRoute(c, p, at, r).Ok? && Midway(c, t0, WriteRoute(c, p, at, r).p, at, answer + [r])
  {
    hide Constraints, Resolve, MerchantOf, WriteRoute, RoutesSoFar, SlotsSoFar, EventsSoFar, DemotionsSoFar, Seen, NewInstant, Mentioned;
    NotYetSeen(c, t0, p.tables, at, answer, r);
    var m := MerchantOf(c, p.tables, r);
    StillQuiet(c, t0, p, at, Touched(c, p.tables, at), m);
    WriteRouteDoes(c, p, at, r);
    var p' := WriteRoute(c, p, at, r).p;
    var k := FindRoute(p'.tables.routes, c.network, r.external).value;
    hide FindRoute;
    MidwayParts(c, t0, p, p', at, answer, r, m, k);
  }

  lemma FoundBefore(c: Config, t: Tables, t': Tables, at: int, r: Report, merchant: nat, k: nat)
    requires Constraints(t) && Constraints(t') && WroteTables(c, t, t', at, r, merchant, k)
    ensures FindRoute(t.routes, c.network, r.external) == if k < |t.routes| then Some(k) else None
  {
    if FindRoute(t.routes, c.network, r.external).Some? {
      var i := FindRoute(t.routes, c.network, r.external).value;
      assert t'.routes[i].network == c.network && t'.routes[i].external == r.external;
    }
  }

  lemma MidwayParts(c: Config, t0: Tables, p: Progress, p': Progress, at: int, answer: seq<Report>, r: Report, m: nat, k: nat)
    requires Midway(c, t0, p, at, answer) && !Mentioned(answer, r.external) && !Seen(c, p.tables, at, m)
    requires Wrote(c, p, p', at, r, m, k)
    requires FindRoute(p.tables.routes, c.network, r.external).Some? ==> FindRoute(p.tables.routes, c.network, r.external).value < |t0.routes|
    ensures Midway(c, t0, p', at, answer + [r])
  {
    var t, t' := p.tables, p'.tables;
    FoundBefore(c, t, t', at, r, m, k);
    hide FindRoute, Mentioned, Seen, Accounted, HasPublishable, HasPreferred, Withdrawn;
    assert ExternalsUnique(t');
    hide Constraints, RoutesSoFar, SlotsSoFar, EventsSoFar, DemotionsSoFar, WroteTables, Named, SameElsewhere;
    RoutesNext(c, t0, t, t', at, answer, r, m, k);
    SlotsNext(c, t0, t, t', at, r, m, k);
    DemotionsNext(c, t0, p, p', at, r, m, k);
    WroteElsewhere(c, t, t', at, r, m, k);
    EventsNext(t0, p, p', at, Touched(c, t, at), m, Withdrawn(c, t, r));
    TouchedNext(c, t, t', at, r, m, k);
  }

  lemma WroteElsewhere(c: Config, t: Tables, t': Tables, at: int, r: Report, merchant: nat, k: nat)
    requires WroteTables(c, t, t', at, r, merchant, k)
    ensures SameElsewhere(t, t', merchant)
  {
    forall i | 0 <= i < |t.routes| && t.routes[i].merchant != merchant ensures t'.routes[i] == t.routes[i] {
      RouteElsewhere(c, t, t', at, r, merchant, k, i);
    }
  }

  lemma TouchedNext(c: Config, t: Tables, t': Tables, at: int, r: Report, merchant: nat, k: nat)
    requires WroteTables(c, t, t', at, r, merchant, k)
    ensures Touched(c, t', at) == Touched(c, t, at) + iset{merchant}
  {
    hide Seen;
    forall x: nat ensures Seen(c, t', at, x) <==> Seen(c, t, at, x) || x == merchant {
      SeenNext(c, t, t', at, r, merchant, k, x);
    }
  }

  /** An answer with no retailer mentioned twice: whatever happens, nothing but an
      unresolved retailer stops it, and the invariant holds. */
  lemma {:induction false} WriteAllMidway(c: Config, t0: Tables, at: int, answer: seq<Report>)
    requires Constraints(t0) && NewInstant(c, t0, at) && Distinct(answer)
    ensures match WriteAll(c, Start(t0), at, answer)
      case Abort(error) => error in {RouteConflict, NoSlug}
      case Ok(p) => Midway(c, t0, p, at, answer)
  {
    hide Constraints, NewInstant, Resolve, WriteRoute, Midway;
    if |answer| == 0 {
      MidwayStarts(c, t0, at);
      assert answer == [];
    } else {
      var before, r := answer[..|answer| - 1], answer[|answer| - 1];
      assert before + [r] == answer;
      assert !Mentioned(before, r.external);
      WriteAllMidway(c, t0, at, before);
      match WriteAll(c, Start(t0), at, before) {
        case Abort(_) =>
        case Ok(p) =>
          MidwayHas(c, t0, p, at, before);
          if Resolve(c, p.tables, r).Unresolved? { UnresolvedStops(c, p, at, r); } else { MidwayStep(c, t0, p, at, before, r); }
      }
    }
  }

  lemma MidwayHas(c: Config, t0: Tables, p: Progress, at: int, answer: seq<Report>)
    requires Midway(c, t0, p, at, answer)
    ensures Constraints(p.tables)
  {
    hide Constraints;
  }

  lemma UnresolvedStops(c: Config, p: Progress, at: int, r: Report)
    requires Constraints(p.tables) && Resolve(c, p.tables, r).Unresolved?
    ensures WriteRoute(c, p, at, r) == Abort(Resolve(c, p.tables, r).error) && Resolve(c, p.tables, r).error in {RouteConflict, NoSlug}
  {
    ResolvesTo(c, p.tables, r);
    hide Constraints, Resolve;
  }

  /** What stops a prefix of an answer stops the answer. */
  lemma {:induction false} StopsEarly(c: Config, p: Progress, at: int, answer: seq<Report>, n: nat)
    requires n <= |answer| && WriteAll(c, p, at, answer[..n]).Abort?
    ensures WriteAll(c, p, at, answer) == WriteAll(c, p, at, answer[..n])
    decreases |answer|
  {
    if n == |answer| {
      assert answer[..n] == answer;
    } else {
      assert answer[..|answer| - 1][..n] == answer[..n];
      StopsEarly(c, p, at, answer[..|answer| - 1], n);
    }
  }
}

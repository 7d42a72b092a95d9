/** When a retailer cannot be told apart from one already imported. */
module ImportConflict {
  import opened Options
  import opened Catalogue
  import opened Import
  import opened ImportStep
  import opened ImportRun
  import opened ImportReconcile
  import opened ImportComplete
  import opened ImportTheorems

  /** A retailer already routed at this network holds the slug. */
  ghost predicate Taken(c: Config, t: Tables, slug: string) {
    exists m :: 0 <= m < |t.merchants| && t.merchants[m].slug == slug && HasRouteAt(t, m, c.network)
  }

  lemma TakenIsFound(c: Config, t: Tables, slug: string)
    requires Constraints(t)
    ensures Taken(c, t, slug) <==> FindMerchant(t.merchants, slug).Some? && HasRouteAt(t, FindMerchant(t.merchants, slug).value, c.network)
  {
  }

  function FirstSlug(c: Config, r: Report): Option<string> {
    if c.slugOf(r.name) != "" then Some(c.slugOf(r.name)) else c.fallback(r.external)
  }

  /** Exactly when a report stops an import: the network's id is new, and either both of
      the slugs it could have belong to retailers already here, or none can be formed
      where one is needed. */
  lemma StopsIff(c: Config, p: Progress, at: int, r: Report)
    requires Constraints(p.tables)
    requires !Resolve(c, p.tables, r).Unresolved? ==> Quiet(p.tables, MerchantOf(c, p.tables, r), at)
    ensures var t, fallback := p.tables, c.fallback(r.external);
      var unknown := FindRoute(t.routes, c.network, r.external).None?;
      && (WriteRoute(c, p, at, r) == Abort(RouteConflict) <==>
            unknown && FirstSlug(c, r).Some? && fallback.Some? && Taken(c, t, FirstSlug(c, r).value) && Taken(c, t, fallback.value))
      && (WriteRoute(c, p, at, r) == Abort(NoSlug) <==>
            unknown && fallback.None? && (FirstSlug(c, r).None? || Taken(c, t, FirstSlug(c, r).value)))
  {
    var t := p.tables;
    if Resolve(c, t, r).Unresolved? { UnresolvedStops(c, p, at, r); } else { WriteRouteDoes(c, p, at, r); }
    hide Constraints, WriteRoute;
    ConflictWhen(c, t, r);
  }

  lemma ConflictWhen(c: Config, t: Tables, r: Report)
    requires Constraints(t)
    ensures var fallback, unknown := c.fallback(r.external), FindRoute(t.routes, c.network, r.external).None?;
      && (Resolve(c, t, r) == Unresolved(RouteConflict) <==>
            unknown && FirstSlug(c, r).Some? && fallback.Some? && Taken(c, t, FirstSlug(c, r).value) && Taken(c, t, fallback.value))
      && (Resolve(c, t, r) == Unresolved(NoSlug) <==>
            unknown && fallback.None? && (FirstSlug(c, r).None? || Taken(c, t, FirstSlug(c, r).value)))
      && (Resolve(c, t, r).Unresolved? ==> Resolve(c, t, r).error in {RouteConflict, NoSlug})
  {
    ResolvesTo(c, t, r);
    if FirstSlug(c, r).Some? { TakenIsFound(c, t, FirstSlug(c, r).value); }
    if c.fallback(r.external).Some? { TakenIsFound(c, t, c.fallback(r.external).value); }
    hide Constraints, Taken, HasRouteAt;
  }

  // ---- when no report can stop it ----

  /** Every retailer has a fallback slug that is its own: no other report's, no other
      report's name's, and held by no retailer already here under another id. */
  ghost predicate WellNamed(c: Config, answer: seq<Report>) {
    && (forall i :: 0 <= i < |answer| ==> c.fallback(answer[i].external).Some?)
    && (forall i, j :: 0 <= i < |answer| && 0 <= j < |answer| && i != j ==>
          c.fallback(answer[i].external) != c.fallback(answer[j].external) && FirstSlug(c, answer[i]) != c.fallback(answer[j].external))
  }

  ghost predicate Free(c: Config, t: Tables, r: Report) {
    FindRoute(t.routes, c.network, r.external).None? && c.fallback(r.external).Some? ==> !Taken(c, t, c.fallback(r.external).value)
  }

  lemma SlugsGiven(c: Config, t: Tables, r: Report)
    requires Constraints(t) && FindRoute(t.routes, c.network, r.external).None?
    ensures match Resolve(c, t, r)
      case Known(m) => m < |t.merchants| && Some(t.merchants[m].slug) in {FirstSlug(c, r), c.fallback(r.external)}
      case Newcomer(slug) => Some(slug) in {FirstSlug(c, r), c.fallback(r.external)}
      case Unresolved(_) => true
  {
    hide Constraints, HasRouteAt;
  }

  /** Writing one report takes no slug but its own. */
  lemma TakenNext(c: Config, t: Tables, t': Tables, at: int, r: Report, m: nat, k: nat, slug: string)
    requires RoutesReferMerchants(t) && WroteTables(c, t, t', at, r, m, k)
    requires k < |t.routes| || t'.merchants[m].slug != slug
    requires Taken(c, t', slug)
    ensures Taken(c, t, slug)
  {
    var m' :| 0 <= m' < |t'.merchants| && t'.merchants[m'].slug == slug && HasRouteAt(t', m', c.network);
    var i: nat :| i < |t'.routes| && t'.routes[i].merchant == m' && t'.routes[i].network == c.network;
    var j := if m' == m then k else i;
    assert t.routes[j].merchant == m' && t.routes[j].network == c.network;
    StillTaken(c, t, j);
  }

  lemma SlugSettled(c: Config, p: Progress, at: int, r: Report)
    requires Constraints(p.tables) && WriteRoute(c, p, at, r).Ok?
    requires FindRoute(p.tables.routes, c.network, r.external).None?
    ensures var t', m := WriteRoute(c, p, at, r).p.tables, MerchantOf(c, p.tables, r);
      m < |t'.merchants| && Some(t'.merchants[m].slug) in {FirstSlug(c, r), c.fallback(r.external)}
  {
    SlugsGiven(c, p.tables, r);
    hide Constraints, Resolve, Upserted, FindRoute, Promotable;
    assert WriteRoute(c, p, at, r).p.tables.merchants == Settled(c, p, r).p.tables.merchants by { MerchantsKept(c, p, at, r); }
  }

  lemma MerchantsKept(c: Config, p: Progress, at: int, r: Report)
    requires WriteRoute(c, p, at, r).Ok?
    ensures Settled(c, p, r).Ok? && WriteRoute(c, p, at, r).p.tables.merchants == Settled(c, p, r).p.tables.merchants
  {
    hide Settled, FindRoute, HasPreferred, Promotable, Announced;
  }

  lemma FreeNext(c: Config, p: Progress, at: int, r: Report, other: Report)
    requires Constraints(p.tables) && !Resolve(c, p.tables, r).Unresolved? && Quiet(p.tables, MerchantOf(c, p.tables, r), at)
    requires Free(c, p.tables, other) && c.fallback(other.external) !in {FirstSlug(c, r), c.fallback(r.external)}
    ensures WriteRoute(c, p, at, r).Ok? && Free(c, WriteRoute(c, p, at, r).p.tables, other)
  {
    WriteRouteDoes(c, p, at, r);
    var t, p', m := p.tables, WriteRoute(c, p, at, r).p, MerchantOf(c, p.tables, r);
    var k := FindRoute(p'.tables.routes, c.network, r.external).value;
    FoundBefore(c, t, p'.tables, at, r, m, k);
    if FindRoute(t.routes, c.network, r.external).None? { SlugSettled(c, p, at, r); }
    hide WriteRoute, Constraints, Resolve, MerchantOf, Accounted, Taken, Withdrawn;
    if Free(c, t, other) && FindRoute(p'.tables.routes, c.network, other.external).None? && c.fallback(other.external).Some? {
      UnknownBefore(c, t, p'.tables, at, r, m, k, other.external);
      if Taken(c, p'.tables, c.fallback(other.external).value) {
        assert RoutesReferMerchants(t) by { Refers(t); }
        TakenNext(c, t, p'.tables, at, r, m, k, c.fallback(other.external).value);
      }
    }
  }

  lemma Refers(t: Tables)
    requires Constraints(t)
    ensures RoutesReferMerchants(t)
  {
  }

  lemma UnknownBefore(c: Config, t: Tables, t': Tables, at: int, r: Report, m: nat, k: nat, external: string)
    requires WroteTables(c, t, t', at, r, m, k) && FindRoute(t'.routes, c.network, external).None?
    ensures FindRoute(t.routes, c.network, external).None?
  {
    forall i | 0 <= i < |t.routes| ensures !(t.routes[i].network == c.network && t.routes[i].external == external) {
      assert t'.routes[i].network == t.routes[i].network && t'.routes[i].external == t.routes[i].external;
    }
  }

  lemma StillTaken(c: Config, t: Tables, i: nat)
    requires RoutesReferMerchants(t) && i < |t.routes| && t.routes[i].network == c.network
    ensures HasRouteAt(t, t.routes[i].merchant, c.network) && Taken(c, t, t.merchants[t.routes[i].merchant].slug)
  {
  }

  lemma {:induction false} WriteAllSucceeds(c: Config, t: Tables, at: int, answer: seq<Report>, n: nat)
    requires Constraints(t) && NewInstant(c, t, at) && Distinct(answer) && WellNamed(c, answer) && n <= |answer|
    requires forall j :: 0 <= j < |answer| ==> Free(c, t, answer[j])
    ensures WriteAll(c, Start(t), at, answer[..n]).Ok?
    ensures forall j :: n <= j < |answer| ==> Free(c, WriteAll(c, Start(t), at, answer[..n]).p.tables, answer[j])
  {
    hide Constraints, NewInstant, Resolve, WriteRoute, Midway, Free, FirstSlug;
    if n == 0 {
      assert Start(t).tables == t;
    } else {
      var before, r := answer[..n - 1], answer[n - 1];
      assert answer[..n][..n - 1] == before;
      WriteAllSucceeds(c, t, at, answer, n - 1);
      WriteAllMidway(c, t, at, before);
      var p := WriteAll(c, Start(t), at, before).p;
      MidwayHas(c, t, p, at, before);
      assert !Mentioned(before, r.external);
      NeverStopped(c, t, p, at, before, r);
      MidwayStep(c, t, p, at, before, r);
      hide Mentioned, Distinct;
      forall j | n <= j < |answer| ensures Free(c, WriteRoute(c, p, at, r).p.tables, answer[j]) {
        assert c.fallback(answer[j].external) !in {FirstSlug(c, r), c.fallback(r.external)};
        FreeNext(c, p, at, r, answer[j]);
      }
    }
  }

  lemma NeverStopped(c: Config, t: Tables, p: Progress, at: int, answer: seq<Report>, r: Report)
    requires NewInstant(c, t, at) && Midway(c, t, p, at, answer) && !Mentioned(answer, r.external)
    requires Free(c, p.tables, r) && c.fallback(r.external).Some?
    ensures !Resolve(c, p.tables, r).Unresolved? && Quiet(p.tables, MerchantOf(c, p.tables, r), at)
  {
    hide Resolve, Constraints, Mentioned, NewInstant, RoutesSoFar, SlotsSoFar, EventsSoFar, DemotionsSoFar, Seen, MerchantOf;
    ConflictWhen(c, p.tables, r);
    NotYetSeen(c, t, p.tables, at, answer, r);
    StillQuiet(c, t, p, at, Touched(c, p.tables, at), MerchantOf(c, p.tables, r));
  }

  /** With well-named retailers a complete answer is always imported: the route conflict
      is then out of reach. */
  lemma WellNamedImports(c: Config, t: Tables, at: int, answer: seq<Report>)
    requires Constraints(t) && NewInstant(c, t, at) && Distinct(answer) && WellNamed(c, answer)
    requires forall j :: 0 <= j < |answer| ==> Free(c, t, answer[j])
    ensures Run(c, t, at, answer, true).Ok? && Complete(c, t, Run(c, t, at, answer, true).p, at, answer)
  {
    hide Constraints, NewInstant, WellNamed, Free, Complete, Midway, Reconcile;
    WriteAllSucceeds(c, t, at, answer, |answer|);
    assert answer[..|answer|] == answer;
    WriteAllMidway(c, t, at, answer);
    ReconcileDoes(c, t, WriteAll(c, Start(t), at, answer).p, at, answer);
  }

  /** Two new retailers with nameless names and one fallback slug between them: whatever
      the catalogue held, the import stops, and no route can ever be reconciled. */
  lemma SharedFallbackStops(c: Config, t: Tables, at: int, first: Report, second: Report, complete: bool)
    requires Constraints(t) && NewInstant(c, t, at) && first.external != second.external
    requires c.slugOf(first.name) == "" && c.slugOf(second.name) == ""
    requires c.fallback(first.external).Some? && c.fallback(second.external) == c.fallback(first.external)
    requires FindRoute(t.routes, c.network, first.external).None? && FindRoute(t.routes, c.network, second.external).None?
    ensures Run(c, t, at, [first, second], complete) == Abort(RouteConflict)
  {
    var answer := [first, second];
    assert answer[..1] == [first] && [first][..0] == [];
    assert WriteAll(c, Start(t), at, answer) == match WriteAll(c, Start(t), at, [first]) case Abort(error) => Abort(error) case Ok(p) => WriteRoute(c, p, at, second);
    assert WriteAll(c, Start(t), at, [first]) == WriteRoute(c, Start(t), at, first);
    hide WriteAll, Reconcile;
    if Resolve(c, t, first).Unresolved? {
      UnresolvedStops(c, Start(t), at, first);
      ConflictWhen(c, t, first);
    } else {
      SecondStops(c, t, at, first, second);
    }
  }

  lemma SecondStops(c: Config, t: Tables, at: int, first: Report, second: Report)
    requires Constraints(t) && NewInstant(c, t, at) && first.external != second.external
    requires c.slugOf(first.name) == "" && c.slugOf(second.name) == ""
    requires c.fallback(first.external).Some? && c.fallback(second.external) == c.fallback(first.external)
    requires FindRoute(t.routes, c.network, first.external).None? && FindRoute(t.routes, c.network, second.external).None?
    requires !Resolve(c, t, first).Unresolved?
    ensures WriteRoute(c, Start(t), at, first).Ok? && WriteRoute(c, WriteRoute(c, Start(t), at, first).p, at, second) == Abort(RouteConflict)
  {
    var m := MerchantOf(c, t, first);
    assert Quiet(t, m, at);
    WriteRouteDoes(c, Start(t), at, first);
    SlugSettled(c, Start(t), at, first);
    var p := WriteRoute(c, Start(t), at, first).p;
    var k := FindRoute(p.tables.routes, c.network, first.external).value;
    hide Resolve, WriteRoute, MerchantOf, Accounted, Withdrawn;
    assert Taken(c, p.tables, c.fallback(first.external).value) by {
      assert Constraints(p.tables);
      assert p.tables.routes[k].merchant == m;
      StillTaken(c, p.tables, k);
    }
    hide Constraints;
    assert FindRoute(p.tables.routes, c.network, second.external).None? by { OtherUnknown(c, Start(t), p, at, first, second, m, k); }
    ConflictWhen(c, p.tables, second);
    UnresolvedStops(c, p, at, second);
  }

  lemma OtherUnknown(c: Config, p: Progress, p': Progress, at: int, first: Report, second: Report, m: nat, k: nat)
    requires Wrote(c, p, p', at, first, m, k) && first.external != second.external
    requires FindRoute(p.tables.routes, c.network, second.external).None?
    ensures FindRoute(p'.tables.routes, c.network, second.external).None?
  {
    hide Constraints, Accounted;
    forall i | 0 <= i < |p'.tables.routes|
      ensures !(p'.tables.routes[i].network == c.network && p'.tables.routes[i].external == second.external)
    {
      if i != k { assert SlotOnly(p.tables.routes[i], p'.tables.routes[i]); }
    }
  }

  // ---- every answer that holds both ----

  lemma TakenStays(c: Config, t: Tables, t': Tables, at: int, r: Report, m: nat, k: nat, slug: string)
    requires WroteTables(c, t, t', at, r, m, k) && RoutesReferMerchants(t) && Taken(c, t, slug)
    ensures Taken(c, t', slug)
  {
    var m' :| 0 <= m' < |t.merchants| && t.merchants[m'].slug == slug && HasRouteAt(t, m', c.network);
    var i: nat :| i < |t.routes| && t.routes[i].merchant == m' && t.routes[i].network == c.network;
    assert t'.routes[i].merchant == m' && t'.routes[i].network == c.network;
    assert HasRouteAt(t', m', c.network);
  }

  lemma StillUnknown(c: Config, t0: Tables, t: Tables, at: int, answer: seq<Report>, external: string)
    requires RoutesSoFar(c, t0, t, at, answer) && FindRoute(t0.routes, c.network, external).None? && !Mentioned(answer, external)
    ensures FindRoute(t.routes, c.network, external).None?
  {
    hide Mentioned;
    forall i | 0 <= i < |t.routes| ensures !(t.routes[i].network == c.network && t.routes[i].external == external) {
      if !Stamped(c, t.routes[i], answer) { assert SlotOnly(t0.routes[i], t.routes[i]); }
    }
  }

  /** A new retailer whose name has no Latin form. */
  ghost predicate Nameless(c: Config, t: Tables, r: Report) {
    c.slugOf(r.name) == "" && c.fallback(r.external).Some? && FindRoute(t.routes, c.network, r.external).None?
  }

  lemma NamelessTakes(c: Config, p: Progress, at: int, r: Report)
    requires Constraints(p.tables) && !Resolve(c, p.tables, r).Unresolved? && Quiet(p.tables, MerchantOf(c, p.tables, r), at)
    requires Nameless(c, p.tables, r)
    ensures WriteRoute(c, p, at, r).Ok? && Taken(c, WriteRoute(c, p, at, r).p.tables, c.fallback(r.external).value)
  {
    var m := MerchantOf(c, p.tables, r);
    WriteRouteDoes(c, p, at, r);
    SlugSettled(c, p, at, r);
    var p' := WriteRoute(c, p, at, r).p;
    hide Resolve, WriteRoute, MerchantOf, Accounted, Withdrawn;
    StillTaken(c, p'.tables, FindRoute(p'.tables.routes, c.network, r.external).value);
  }

  /** From the first of them on its fallback slug is taken, in whatever the import has
      written. */
  lemma {:induction false} TakenSince(c: Config, t: Tables, at: int, answer: seq<Report>, i: nat)
    requires Constraints(t) && NewInstant(c, t, at) && Distinct(answer) && i < |answer| && Nameless(c, t, answer[i])
    requires WriteAll(c, Start(t), at, answer).Ok?
    ensures Taken(c, WriteAll(c, Start(t), at, answer).p.tables, c.fallback(answer[i].external).value)
  {
    hide Constraints, NewInstant, Resolve, WriteRoute, Midway, Taken;
    var before, r := answer[..|answer| - 1], answer[|answer| - 1];
    WriteAllMidway(c, t, at, before);
    assert !Mentioned(before, r.external);
    var p := WriteAll(c, Start(t), at, before).p;
    WrittenNext(c, t, p, at, before, r);
    if i == |answer| - 1 {
      NamelessTakes(c, p, at, r);
    } else {
      TakenSince(c, t, at, before, i);
      NextTakenStays(c, p, at, r, c.fallback(answer[i].external).value);
    }
  }

  /** A report that was written had been resolved, to a retailer not touched before, and
      its id was as unknown as it had been at the start. */
  lemma WrittenNext(c: Config, t: Tables, p: Progress, at: int, before: seq<Report>, r: Report)
    requires NewInstant(c, t, at) && Midway(c, t, p, at, before) && !Mentioned(before, r.external)
    ensures Constraints(p.tables)
    ensures Nameless(c, t, r) ==> Nameless(c, p.tables, r)
    ensures WriteRoute(c, p, at, r).Ok? ==> !Resolve(c, p.tables, r).Unresolved? && Quiet(p.tables, MerchantOf(c, p.tables, r), at)
  {
    hide Constraints, Resolve, Mentioned, NewInstant, RoutesSoFar, SlotsSoFar, EventsSoFar, DemotionsSoFar, Seen, MerchantOf, WriteRoute, FindRoute;
    if FindRoute(t.routes, c.network, r.external).None? { StillUnknown(c, t, p.tables, at, before, r.external); }
    if Resolve(c, p.tables, r).Unresolved? {
      UnresolvedStops(c, p, at, r);
    } else {
      NotYetSeen(c, t, p.tables, at, before, r);
      StillQuiet(c, t, p, at, Touched(c, p.tables, at), MerchantOf(c, p.tables, r));
    }
  }

  lemma NextTakenStays(c: Config, p: Progress, at: int, r: Report, slug: string)
    requires Constraints(p.tables) && !Resolve(c, p.tables, r).Unresolved? && Quiet(p.tables, MerchantOf(c, p.tables, r), at)
    requires Taken(c, p.tables, slug)
    ensures WriteRoute(c, p, at, r).Ok? && Taken(c, WriteRoute(c, p, at, r).p.tables, slug)
  {
    WriteRouteDoes(c, p, at, r);
    Refers(p.tables);
    hide Constraints, Resolve, WriteRoute, MerchantOf, Taken, Accounted, Withdrawn, Quiet, FindRoute;
    var p' := WriteRoute(c, p, at, r).p;
    TakenStays(c, p.tables, p'.tables, at, r, MerchantOf(c, p.tables, r), FindRoute(p'.tables.routes, c.network, r.external).value, slug);
  }

  /** No answer that mentions two new nameless retailers with one fallback slug between
      them is ever imported, whatever else it mentions and whatever the tables held. */
  lemma NoAnswerWithBothIsImported(c: Config, t: Tables, at: int, answer: seq<Report>, i: nat, j: nat, complete: bool)
    requires Constraints(t) && NewInstant(c, t, at) && Distinct(answer) && i < j < |answer|
    requires Nameless(c, t, answer[i]) && Nameless(c, t, answer[j]) && c.fallback(answer[i].external) == c.fallback(answer[j].external)
    ensures Run(c, t, at, answer, complete).Abort?
  {
    hide Constraints, NewInstant, Resolve, WriteRoute, Midway, Reconcile, Taken, FirstSlug;
    var before, r := answer[..j], answer[j];
    assert answer[..j + 1][..j] == before;
    assert !Mentioned(before, r.external);
    WriteAllMidway(c, t, at, before);
    if WriteAll(c, Start(t), at, before).Ok? {
      var p := WriteAll(c, Start(t), at, before).p;
      TakenSince(c, t, at, before, i);
      WrittenNext(c, t, p, at, before, r);
      SecondIsStopped(c, p, at, r);
      StopsEarly(c, Start(t), at, answer, j + 1);
    } else {
      StopsEarly(c, Start(t), at, answer, j);
    }
  }

  lemma SecondIsStopped(c: Config, p: Progress, at: int, r: Report)
    requires Constraints(p.tables) && Nameless(c, p.tables, r) && Taken(c, p.tables, c.fallback(r.external).value)
    ensures WriteRoute(c, p, at, r) == Abort(RouteConflict)
  {
    hide Constraints, Resolve, WriteRoute, Taken;
    ConflictWhen(c, p.tables, r);
    UnresolvedStops(c, p, at, r);
  }
}

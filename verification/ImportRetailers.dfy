/** Which retailer a report ends with: the order of the questions, and what a whole run
    makes of the answers. */
module ImportRetailers {
  import opened Options
  import opened Catalogue
  import opened Import
  import opened ImportStep
  import opened ImportRun
  import opened ImportReconcile
  import opened ImportComplete
  import opened ImportTheorems
  import opened ImportConflict

  // ---- the order of the questions ----

  ghost predicate Holds(t: Tables, m: nat, slug: string) { m < |t.merchants| && t.merchants[m].slug == slug }

  ghost predicate Nobody(t: Tables, slug: string) { forall m: nat :: !Holds(t, m, slug) }

  /** A route of this network leads to the retailer. */
  ghost predicate Here(c: Config, t: Tables, m: nat) {
    exists i: nat :: i < |t.routes| && t.routes[i].merchant == m && t.routes[i].network == c.network
  }

  ghost predicate KnownHere(c: Config, t: Tables, external: string, i: nat) {
    i < |t.routes| && t.routes[i].network == c.network && t.routes[i].external == external
  }

  /** The network's own id is the first question: whatever the retailer is called, a route
      under that id says who it is. */
  lemma IdComesFirst(c: Config, t: Tables, r: Report, i: nat)
    requires Constraints(t) && KnownHere(c, t, r.external, i)
    ensures Resolve(c, t, r) == Known(t.routes[i].merchant)
  {
    FindRouteIs(t, i);
    hide Constraints;
  }

  /** Then the slug of its name: a new retailer is created under it if nobody holds it, and
      one reached so far through other networks alone is joined. */
  lemma NameComesNext(c: Config, t: Tables, r: Report, m: nat)
    requires Constraints(t) && c.slugOf(r.name) != "" && forall i: nat :: !KnownHere(c, t, r.external, i)
    ensures Nobody(t, c.slugOf(r.name)) ==> Resolve(c, t, r) == Newcomer(c.slugOf(r.name))
    ensures Holds(t, m, c.slugOf(r.name)) && !Here(c, t, m) ==> Resolve(c, t, r) == Known(m)
  {
    UnknownIsNotFound(c, t, r.external);
    FindMerchantIs(t, c.slugOf(r.name), m);
    HereIs(c, t, m);
    hide Constraints, HasRouteAt, Here;
  }

  /** And the fallback slug last: when the name has no slug, or its slug is held by a
      retailer already here. It is asked the same way, and past it the report stops. */
  lemma FallbackComesLast(c: Config, t: Tables, r: Report, holder: nat, m: nat)
    requires Constraints(t) && forall i: nat :: !KnownHere(c, t, r.external, i)
    requires c.slugOf(r.name) == "" || (Holds(t, holder, c.slugOf(r.name)) && Here(c, t, holder))
    ensures c.fallback(r.external).None? ==> Resolve(c, t, r) == Unresolved(NoSlug)
    ensures c.fallback(r.external).Some? && Nobody(t, c.fallback(r.external).value) ==> Resolve(c, t, r) == Newcomer(c.fallback(r.external).value)
    ensures c.fallback(r.external).Some? && Holds(t, m, c.fallback(r.external).value) && !Here(c, t, m) ==> Resolve(c, t, r) == Known(m)
    ensures c.fallback(r.external).Some? && Holds(t, m, c.fallback(r.external).value) && Here(c, t, m) ==> Resolve(c, t, r) == Unresolved(RouteConflict)
  {
    UnknownIsNotFound(c, t, r.external);
    if c.slugOf(r.name) != "" { FindMerchantIs(t, c.slugOf(r.name), holder); }
    if c.fallback(r.external).Some? { FindMerchantIs(t, c.fallback(r.external).value, m); }
    HereIs(c, t, holder);
    HereIs(c, t, m);
    hide Constraints, HasRouteAt, Here;
  }

  lemma UnknownIsNotFound(c: Config, t: Tables, external: string)
    requires forall i: nat :: !KnownHere(c, t, external, i)
    ensures FindRoute(t.routes, c.network, external).None?
  {
    forall i: nat | i < |t.routes| ensures !(t.routes[i].network == c.network && t.routes[i].external == external) {
      assert !KnownHere(c, t, external, i);
    }
  }

  lemma FindMerchantIs(t: Tables, slug: string, m: nat)
    requires Constraints(t)
    ensures Nobody(t, slug) ==> FindMerchant(t.merchants, slug).None?
    ensures Holds(t, m, slug) ==> FindMerchant(t.merchants, slug) == Some(m)
  {
    if FindMerchant(t.merchants, slug).Some? { assert Holds(t, FindMerchant(t.merchants, slug).value, slug); }
  }

  lemma HereIs(c: Config, t: Tables, m: nat)
    ensures Here(c, t, m) <==> HasRouteAt(t, m, c.network)
  {
  }

  // ---- a run leaves a report's route where it was written ----

  /** Routes keep their retailer, their network and their id, and retailers their slug. */
  ghost predicate SameHomes(t: Tables, t': Tables) {
    && |t.routes| <= |t'.routes| && t.merchants <= t'.merchants
    && forall i :: 0 <= i < |t.routes| ==>
         t'.routes[i].merchant == t.routes[i].merchant && t'.routes[i].network == t.routes[i].network && t'.routes[i].external == t.routes[i].external
  }

  lemma HandOverKeepsHomes(p: Progress, merchant: nat, previous: Option<nat>, at: int)
    ensures var o := HandOver(p, merchant, previous, at); o.Ok? ==> SameHomes(p.tables, o.p.tables)
  {
    hide HasPreferred, Earliest, Announced;
  }

  lemma WriteRouteKeepsHomes(c: Config, p: Progress, at: int, r: Report)
    ensures var o := WriteRoute(c, p, at, r); o.Ok? ==> SameHomes(p.tables, o.p.tables)
  {
    hide Resolve, MerchantOf, HandOver, HasPreferred, IsPublished, FindRoute, RowOf;
    if Settled(c, p, r).Ok? {
      var p1, m := Settled(c, p, r).p, MerchantOf(c, p.tables, r);
      assert p1.tables.routes == p.tables.routes;
      UpsertedKeepsHomes(c, p1, at, r, m);
      HandOverKeepsHomes(Upserted(c, p1, at, r, m), m, Withdrawn(c, p1.tables, r), at);
    }
  }

  lemma UpsertedKeepsHomes(c: Config, p: Progress, at: int, r: Report, m: nat)
    ensures SameHomes(p.tables, Upserted(c, p, at, r, m).tables)
  {
    hide HasPreferred, FindRoute;
  }

  /** From the n-th report on, every route stays where it is. */
  lemma {:induction false} WriteAllKeepsHomes(c: Config, p: Progress, at: int, answer: seq<Report>, n: nat)
    requires n <= |answer| && WriteAll(c, p, at, answer).Ok?
    ensures WriteAll(c, p, at, answer[..n]).Ok? && SameHomes(WriteAll(c, p, at, answer[..n]).p.tables, WriteAll(c, p, at, answer).p.tables)
    decreases |answer|
  {
    hide WriteRoute;
    if n == |answer| {
      assert answer[..n] == answer;
    } else {
      var before := answer[..|answer| - 1];
      assert before[..n] == answer[..n];
      WriteAllKeepsHomes(c, p, at, before, n);
      WriteRouteKeepsHomes(c, WriteAll(c, p, at, before).p, at, answer[|answer| - 1]);
    }
  }

  lemma {:induction false} HandOverAllKeepsHomes(p: Progress, departed: seq<nat>, at: int)
    requires forall k :: 0 <= k < |departed| ==> departed[k] < |p.tables.routes|
    ensures var o := HandOverAll(p, departed, at); o.Ok? ==> SameHomes(p.tables, o.p.tables)
  {
    hide HandOver;
    if |departed| > 0 {
      var before := departed[..|departed| - 1];
      HandOverAllKeepsHomes(p, before, at);
      if HandOverAll(p, before, at).Ok? {
        var last := departed[|departed| - 1];
        HandOverKeepsHomes(HandOverAll(p, before, at).p, p.tables.routes[last].merchant, Some(last), at);
      }
    }
  }

  lemma ReconcileKeepsHomes(c: Config, p: Progress, at: int)
    ensures var o := Reconcile(c, p, at); o.Ok? ==> SameHomes(p.tables, o.p.tables)
  {
    assert SameHomes(p.tables, Departing(c, p, at).tables);
    HandOverAllKeepsHomes(Departing(c, p, at), DemotedNotSeen(p.tables.routes, c.network, at), at);
    hide HandOverAll, Departing;
  }

  /** A report's route leads, at the end of the run, to the retailer the report resolved
      to when it was read. */
  lemma StaysWhereWritten(c: Config, t: Tables, at: int, answer: seq<Report>, j: nat)
    requires Constraints(t) && NewInstant(c, t, at) && Distinct(answer) && j < |answer| && Run(c, t, at, answer, true).Ok?
    ensures WriteAll(c, Start(t), at, answer[..j]).Ok?
    ensures var found, t' := WriteAll(c, Start(t), at, answer[..j]).p.tables, Run(c, t, at, answer, true).p.tables;
      && (exists i: nat :: KnownHere(c, t', answer[j].external, i) && t'.routes[i].merchant == MerchantOf(c, found, answer[j]))
      && (Resolve(c, found, answer[j]).Newcomer? ==>
            |t.merchants| <= |found.merchants| < |t'.merchants| && t'.merchants[|found.merchants|] == Merchant(Resolve(c, found, answer[j]).slug, true))
  {
    hide Constraints, NewInstant, Resolve, WriteRoute, Midway, Reconcile, MerchantOf;
    assert answer[..j + 1][..j] == answer[..j];
    WriteAllKeepsHomes(c, Start(t), at, answer, j + 1);
    WriteAllMidway(c, t, at, answer[..j]);
    var p, r := WriteAll(c, Start(t), at, answer[..j]).p, answer[j];
    assert !Mentioned(answer[..j], r.external);
    WrittenNext(c, t, p, at, answer[..j], r);
    WriteRouteDoes(c, p, at, r);
    var p' := WriteRoute(c, p, at, r).p;
    var k := FindRoute(p'.tables.routes, c.network, r.external).value;
    assert p'.tables.routes[k].merchant == MerchantOf(c, p.tables, r);
    ReconcileKeepsHomes(c, WriteAll(c, Start(t), at, answer).p, at);
    MerchantsKept(c, p, at, r);
    FirstKept(c, t, p, at, answer[..j]);
    var t' := Run(c, t, at, answer, true).p.tables;
    assert KnownHere(c, t', r.external, k) && t'.routes[k].merchant == MerchantOf(c, p.tables, r);
  }

  lemma FirstKept(c: Config, t: Tables, p: Progress, at: int, answer: seq<Report>)
    requires Midway(c, t, p, at, answer)
    ensures t.merchants <= p.tables.merchants
  {
    hide Constraints;
  }

  // ---- a slug no other report can take ----

  /** No other report of the answer has this slug, from its name or as its fallback. */
  ghost predicate Alone(c: Config, answer: seq<Report>, j: nat, slug: string) {
    forall k :: 0 <= k < |answer| && k != j ==> FirstSlug(c, answer[k]) != Some(slug) && c.fallback(answer[k].external) != Some(slug)
  }

  /** The same retailers hold the slug, and each is here or not as before. */
  ghost predicate SameHolders(c: Config, t: Tables, t': Tables, slug: string) {
    && |t.merchants| <= |t'.merchants|
    && (forall m: nat :: Holds(t', m, slug) <==> Holds(t, m, slug))
    && (forall m: nat :: Holds(t, m, slug) ==> (HasRouteAt(t', m, c.network) <==> HasRouteAt(t, m, c.network)))
  }

  lemma HoldersNext(c: Config, p: Progress, at: int, r: Report, slug: string)
    requires Constraints(p.tables) && !Resolve(c, p.tables, r).Unresolved? && Quiet(p.tables, MerchantOf(c, p.tables, r), at)
    requires FirstSlug(c, r) != Some(slug) && c.fallback(r.external) != Some(slug)
    ensures WriteRoute(c, p, at, r).Ok? && SameHolders(c, p.tables, WriteRoute(c, p, at, r).p.tables, slug)
  {
    WriteRouteDoes(c, p, at, r);
    MerchantsKept(c, p, at, r);
    var t, t', m := p.tables, WriteRoute(c, p, at, r).p.tables, MerchantOf(c, p.tables, r);
    var k := FindRoute(t'.routes, c.network, r.external).value;
    FoundBefore(c, t, t', at, r, m, k);
    NewHolder(c, p, at, r, slug);
    Refers(t);
    hide WriteRoute, Constraints, Resolve, MerchantOf, Accounted, Withdrawn, Settled, FindRoute, Holds, FirstSlug, HasRouteAt;
    forall x: nat | Holds(t, x, slug) ensures HasRouteAt(t', x, c.network) <==> HasRouteAt(t, x, c.network) {
      SameRoutesAt(c, t, t', at, r, m, k, x);
    }
  }

  /** The retailer a report is written to does not hold a slug the report cannot take,
      unless the report's id was known; and no other retailer is new. */
  lemma NewHolder(c: Config, p: Progress, at: int, r: Report, slug: string)
    requires Constraints(p.tables) && WriteRoute(c, p, at, r).Ok? && Settled(c, p, r).Ok?
    requires WriteRoute(c, p, at, r).p.tables.merchants == Settled(c, p, r).p.tables.merchants
    requires FirstSlug(c, r) != Some(slug) && c.fallback(r.external) != Some(slug)
    ensures var t, t' := p.tables, WriteRoute(c, p, at, r).p.tables;
      && |t.merchants| <= |t'.merchants|
      && (forall x: nat :: Holds(t', x, slug) <==> Holds(t, x, slug))
      && (FindRoute(t.routes, c.network, r.external).None? ==> !Holds(t, MerchantOf(c, t, r), slug))
  {
    ResolvesTo(c, p.tables, r);
    if FindRoute(p.tables.routes, c.network, r.external).None? { SlugsGiven(c, p.tables, r); }
    hide WriteRoute, Constraints, FirstSlug, HasRouteAt;
  }

  lemma SameRoutesAt(c: Config, t: Tables, t': Tables, at: int, r: Report, m: nat, k: nat, x: nat)
    requires WroteTables(c, t, t', at, r, m, k) && (k < |t.routes| || x != m)
    ensures HasRouteAt(t', x, c.network) <==> HasRouteAt(t, x, c.network)
  {
    if HasRouteAt(t', x, c.network) {
      var i :| 0 <= i < |t'.routes| && t'.routes[i].merchant == x && t'.routes[i].network == c.network;
      assert i < |t.routes|;
      assert t.routes[i].merchant == x && t.routes[i].network == c.network;
    }
    if HasRouteAt(t, x, c.network) {
      var i :| 0 <= i < |t.routes| && t.routes[i].merchant == x && t.routes[i].network == c.network;
      assert t'.routes[i].merchant == x && t'.routes[i].network == c.network;
    }
  }

  lemma {:induction false} HoldersSoFar(c: Config, t: Tables, at: int, answer: seq<Report>, j: nat, n: nat, slug: string)
    requires Constraints(t) && NewInstant(c, t, at) && Distinct(answer) && Alone(c, answer, j, slug) && n <= j <= |answer|
    requires WriteAll(c, Start(t), at, answer[..n]).Ok?
    ensures SameHolders(c, t, WriteAll(c, Start(t), at, answer[..n]).p.tables, slug)
  {
    hide Constraints, NewInstant, Resolve, WriteRoute, Midway, FirstSlug, HasRouteAt, Holds;
    if n > 0 {
      var before, r := answer[..n - 1], answer[n - 1];
      assert answer[..n][..n - 1] == before && answer[..n][n - 1] == r;
      HoldersSoFar(c, t, at, answer, j, n - 1, slug);
      WriteAllMidway(c, t, at, before);
      assert !Mentioned(before, r.external);
      var p := WriteAll(c, Start(t), at, before).p;
      WrittenNext(c, t, p, at, before, r);
      HoldersNext(c, p, at, r, slug);
    } else {
      assert answer[..0] == [];
    }
  }

  /** Joined across networks: a report with a new id, whose name's slug a retailer reached
      so far only through other networks holds, ends on that retailer, whatever else the
      answer mentions that cannot take the slug. */
  lemma JoinsAcrossNetworks(c: Config, t: Tables, at: int, answer: seq<Report>, j: nat, m: nat)
    requires Constraints(t) && NewInstant(c, t, at) && Distinct(answer) && j < |answer| && Run(c, t, at, answer, true).Ok?
    requires c.slugOf(answer[j].name) != "" && Alone(c, answer, j, c.slugOf(answer[j].name))
    requires Holds(t, m, c.slugOf(answer[j].name)) && !Here(c, t, m) && forall i: nat :: !KnownHere(c, t, answer[j].external, i)
    ensures var t' := Run(c, t, at, answer, true).p.tables;
      exists i: nat :: KnownHere(c, t', answer[j].external, i) && t'.routes[i].merchant == m
  {
    StaysWhereWritten(c, t, at, answer, j);
    ResolvedAlone(c, t, at, answer, j, m);
    hide *;
  }

  /** And a report with a new id and a slug nobody holds founds a retailer of that slug,
      shown to readers, and ends on it. */
  lemma FoundsItsOwn(c: Config, t: Tables, at: int, answer: seq<Report>, j: nat)
    requires Constraints(t) && NewInstant(c, t, at) && Distinct(answer) && j < |answer| && Run(c, t, at, answer, true).Ok?
    requires c.slugOf(answer[j].name) != "" && Alone(c, answer, j, c.slugOf(answer[j].name))
    requires Nobody(t, c.slugOf(answer[j].name)) && forall i: nat :: !KnownHere(c, t, answer[j].external, i)
    ensures var t' := Run(c, t, at, answer, true).p.tables;
      exists i: nat :: KnownHere(c, t', answer[j].external, i) && |t.merchants| <= t'.routes[i].merchant < |t'.merchants|
        && t'.merchants[t'.routes[i].merchant] == Merchant(c.slugOf(answer[j].name), true)
  {
    StaysWhereWritten(c, t, at, answer, j);
    ResolvedAlone(c, t, at, answer, j, 0);
    hide Constraints, NewInstant, Resolve, WriteRoute, Reconcile, Run, WriteAll, Nobody, Alone;
  }

  lemma ResolvedAlone(c: Config, t: Tables, at: int, answer: seq<Report>, j: nat, m: nat)
    requires Constraints(t) && NewInstant(c, t, at) && Distinct(answer) && j < |answer| && WriteAll(c, Start(t), at, answer[..j]).Ok?
    requires c.slugOf(answer[j].name) != "" && Alone(c, answer, j, c.slugOf(answer[j].name))
    requires forall i: nat :: !KnownHere(c, t, answer[j].external, i)
    ensures var found, slug := WriteAll(c, Start(t), at, answer[..j]).p.tables, c.slugOf(answer[j].name);
      && (Nobody(t, slug) ==> Resolve(c, found, answer[j]) == Newcomer(slug))
      && (Holds(t, m, slug) && !Here(c, t, m) ==> MerchantOf(c, found, answer[j]) == m)
  {
    hide Constraints, NewInstant, Resolve, WriteRoute, Midway, FirstSlug, HasRouteAt, Holds, FindRoute, KnownHere, Here, Reconcile;
    var r, before := answer[j], answer[..j];
    var p, slug := WriteAll(c, Start(t), at, before).p, c.slugOf(r.name);
    HoldersSoFar(c, t, at, answer, j, j, slug);
    WriteAllMidway(c, t, at, before);
    assert !Mentioned(before, r.external);
    MidwayHas(c, t, p, at, before);
    UnknownIsNotFound(c, t, r.external);
    StillUnknownMidway(c, t, p, at, before, r.external);
    HereIs(c, t, m);
    HereIs(c, p.tables, m);
    NameComesNext(c, p.tables, r, m);
  }

  lemma StillUnknownMidway(c: Config, t: Tables, p: Progress, at: int, before: seq<Report>, external: string)
    requires Midway(c, t, p, at, before) && FindRoute(t.routes, c.network, external).None? && !Mentioned(before, external)
    ensures forall i: nat :: !KnownHere(c, p.tables, external, i)
  {
    hide Constraints, SlotsSoFar, EventsSoFar, DemotionsSoFar;
    StillUnknown(c, t, p.tables, at, before, external);
  }
}

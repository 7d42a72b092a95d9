/** The merchant tables, their constraints, and the statements an import runs on them
    (migrations 0011 and 0035, and internal/cashback/catalogue/queries/import.sql). */
module Catalogue {
  import opened Options

  datatype Status = Active | Paused | LeftNetwork

  /** A retailer; its id is its position. `shown` is merchant.status = 'active'. */
  datatype Merchant = Merchant(slug: string, shown: bool)

  /** One route to a retailer through one network; its id is its position. */
  datatype Route = Route(merchant: nat, network: string, external: string, brand: string,
                         retrievedAt: int, status: Status, preferred: bool, canAttribute: bool) {
    predicate Publishable() { status == Active && canAttribute }
  }

  /** A movement of a retailer's published slot, on the event stream. */
  datatype SlotEvent =
    | Published(merchant: nat, route: nat, previous: Option<nat>, at: int)
    | Unpublished(merchant: nat, previous: Option<nat>, at: int)

  /** The idempotency key: the event's type, the retailer and the run's instant. */
  predicate SameKey(a: SlotEvent, b: SlotEvent) {
    a.Published? == b.Published? && a.merchant == b.merchant && a.at == b.at
  }

  datatype Tables = Tables(merchants: seq<Merchant>, routes: seq<Route>, events: seq<SlotEvent>)

  // ---- constraints ----

  predicate SlugsUnique(t: Tables) {
    forall i, j :: 0 <= i < j < |t.merchants| ==> t.merchants[i].slug != t.merchants[j].slug
  }

  /** merchant_slug_format: lower-case letters and digits, in groups with one hyphen
      between them. */
  predicate SlugFormed(slug: string) {
    && |slug| > 0 && slug[0] != '-' && slug[|slug| - 1] != '-'
    && (forall i :: 0 <= i < |slug| ==> 'a' <= slug[i] <= 'z' || '0' <= slug[i] <= '9' || slug[i] == '-')
    && (forall i :: 0 <= i < |slug| - 1 ==> slug[i] != '-' || slug[i + 1] != '-')
  }

  predicate SlugsFormed(t: Tables) { forall i :: 0 <= i < |t.merchants| ==> SlugFormed(t.merchants[i].slug) }

  predicate RoutesReferMerchants(t: Tables) { forall i :: 0 <= i < |t.routes| ==> t.routes[i].merchant < |t.merchants| }

  /** merchant_network_unique_per_network */
  predicate ExternalsUnique(t: Tables) {
    forall i, j :: 0 <= i < j < |t.routes| && t.routes[i].network == t.routes[j].network ==> t.routes[i].external != t.routes[j].external
  }

  /** merchant_network_one_route_per_network */
  predicate OneRoutePerNetwork(t: Tables) {
    forall i, j :: 0 <= i < j < |t.routes| && t.routes[i].network == t.routes[j].network ==> t.routes[i].merchant != t.routes[j].merchant
  }

  /** merchant_network_one_preferred */
  predicate OnePreferred(t: Tables) {
    forall i, j :: 0 <= i < j < |t.routes| && t.routes[i].preferred && t.routes[j].preferred ==> t.routes[i].merchant != t.routes[j].merchant
  }

  /** merchant_network_preferred_is_publishable */
  predicate PreferredPublishable(t: Tables) {
    forall i :: 0 <= i < |t.routes| && t.routes[i].preferred ==> t.routes[i].Publishable()
  }

  predicate KeysUnique(t: Tables) {
    forall i, j :: 0 <= i < j < |t.events| ==> !SameKey(t.events[i], t.events[j])
  }

  /** What the database enforces on every statement. */
  predicate Constraints(t: Tables) {
    && SlugsFormed(t) && SlugsUnique(t) && RoutesReferMerchants(t) && ExternalsUnique(t) && OneRoutePerNetwork(t)
    && OnePreferred(t) && PreferredPublishable(t) && KeysUnique(t)
  }

  // ---- statements ----

  /** FindRouteByExternalID */
  function FindRoute(routes: seq<Route>, network: string, external: string): (found: Option<nat>)
    ensures found.Some? ==> found.value < |routes| && routes[found.value].network == network && routes[found.value].external == external
    ensures found.None? ==> forall i :: 0 <= i < |routes| ==> !(routes[i].network == network && routes[i].external == external)
  {
    if |routes| == 0 then None
    else
      var last := |routes| - 1;
      if routes[last].network == network && routes[last].external == external then Some(last)
      else FindRoute(routes[..last], network, external)
  }

  function FindMerchant(merchants: seq<Merchant>, slug: string): (found: Option<nat>)
    ensures found.Some? ==> found.value < |merchants| && merchants[found.value].slug == slug
    ensures found.None? ==> forall i :: 0 <= i < |merchants| ==> merchants[i].slug != slug
  {
    if |merchants| == 0 then None
    else
      var last := |merchants| - 1;
      if merchants[last].slug == slug then Some(last) else FindMerchant(merchants[..last], slug)
  }

  predicate HasRouteAt(t: Tables, merchant: nat, network: string) {
    exists i :: 0 <= i < |t.routes| && t.routes[i].merchant == merchant && t.routes[i].network == network
  }

  /** MerchantHasPreferredRoute */
  predicate HasPreferred(t: Tables, merchant: nat) {
    exists i :: 0 <= i < |t.routes| && t.routes[i].merchant == merchant && t.routes[i].preferred
  }

  predicate HasPublishable(t: Tables, merchant: nat) {
    exists i :: 0 <= i < |t.routes| && t.routes[i].merchant == merchant && t.routes[i].Publishable()
  }

  function CreateMerchant(t: Tables, slug: string): Tables { t.(merchants := t.merchants + [Merchant(slug, true)]) }

  function Unprefer(t: Tables, i: nat): Tables
    requires i < |t.routes|
  {
    t.(routes := t.routes[i := t.routes[i].(preferred := false)])
  }

  /** The route DemotePreferredRoute matches, if it is the published one. */
  function Demotable(t: Tables, network: string, external: string): (i: Option<nat>)
    ensures i.Some? ==> i.value < |t.routes| && t.routes[i.value].preferred
  {
    match FindRoute(t.routes, network, external)
    case Some(i) => if t.routes[i].preferred then Some(i) else None
    case None => None
  }

  /** UpsertRoute: a conflict rewrites what the network last said and when, and never
      the retailer, the brand or the preferred flag. */
  function UpsertRoute(t: Tables, row: Route): Tables {
    match FindRoute(t.routes, row.network, row.external)
    case Some(i) => t.(routes := t.routes[i := t.routes[i].(retrievedAt := row.retrievedAt, status := row.status)])
    case None => t.(routes := t.routes + [row])
  }

  /** The earliest publishable route of a retailer: by retrieval, then by id. */
  function Earliest(routes: seq<Route>, merchant: nat): (best: Option<nat>)
    ensures best.Some? ==>
      && best.value < |routes| && routes[best.value].merchant == merchant && routes[best.value].Publishable()
      && forall i :: 0 <= i < |routes| && routes[i].merchant == merchant && routes[i].Publishable() ==>
           routes[best.value].retrievedAt < routes[i].retrievedAt
           || (routes[best.value].retrievedAt == routes[i].retrievedAt && best.value <= i)
    ensures best.None? ==> forall i :: 0 <= i < |routes| && routes[i].merchant == merchant ==> !routes[i].Publishable()
  {
    if |routes| == 0 then None
    else
      var last := |routes| - 1;
      var before := Earliest(routes[..last], merchant);
      if routes[last].merchant != merchant || !routes[last].Publishable() then before
      else if before.None? || routes[last].retrievedAt < routes[before.value].retrievedAt then Some(last)
      else before
  }

  /** The row PromotePublishableRoute updates, if the retailer has none published. */
  function Promotable(t: Tables, merchant: nat): (i: Option<nat>)
    ensures i.Some? ==> i.value < |t.routes|
  {
    if HasPreferred(t, merchant) then None else Earliest(t.routes, merchant)
  }

  function Prefer(t: Tables, i: nat): Tables
    requires i < |t.routes|
  {
    t.(routes := t.routes[i := t.routes[i].(preferred := true)])
  }

  /** The predicate DemotePreferredRoutesNotSeen and MarkRoutesNotSeen share. */
  predicate NotSeen(r: Route, network: string, started: int) {
    r.network == network && r.retrievedAt < started && r.status != LeftNetwork
  }

  function DemoteOne(r: Route, network: string, started: int): Route {
    if NotSeen(r, network, started) then r.(preferred := false) else r
  }

  function MarkOne(r: Route, network: string, started: int): Route {
    if NotSeen(r, network, started) then r.(status := LeftNetwork) else r
  }

  function DemoteNotSeen(t: Tables, network: string, started: int): (after: Tables)
    ensures |after.routes| == |t.routes|
  {
    t.(routes := seq(|t.routes|, i requires 0 <= i < |t.routes| => DemoteOne(t.routes[i], network, started)))
  }

  function MarkNotSeen(t: Tables, network: string, started: int): (after: Tables)
    ensures |after.routes| == |t.routes|
  {
    t.(routes := seq(|t.routes|, i requires 0 <= i < |t.routes| => MarkOne(t.routes[i], network, started)))
  }

  /** The rows DemotePreferredRoutesNotSeen returns. */
  function DemotedNotSeen(routes: seq<Route>, network: string, started: int): (ids: seq<nat>)
    ensures forall i :: i in ids <==> 0 <= i < |routes| && NotSeen(routes[i], network, started) && routes[i].preferred
    ensures forall k :: 0 <= k < |ids| ==> ids[k] < |routes|
    ensures forall a, b :: 0 <= a < b < |ids| ==> ids[a] < ids[b]
  {
    if |routes| == 0 then []
    else
      var last := |routes| - 1;
      var before := DemotedNotSeen(routes[..last], network, started);
      assert forall a :: 0 <= a < |before| ==> before[a] in before;
      if NotSeen(routes[last], network, started) && routes[last].preferred then before + [last] else before
  }

  /** MarkRoutesNotSeen's row count. */
  function DepartingCount(routes: seq<Route>, network: string, started: int): nat {
    if |routes| == 0 then 0
    else
      var before := DepartingCount(routes[..|routes| - 1], network, started);
      if NotSeen(routes[|routes| - 1], network, started) then before + 1 else before
  }

  predicate Announced(t: Tables, event: SlotEvent) { exists e <- t.events :: SameKey(e, event) }

  function Announce(t: Tables, event: SlotEvent): Tables { t.(events := t.events + [event]) }

  /** RetailersPublishingNothing */
  predicate PublishesNothing(t: Tables, merchant: nat) {
    merchant < |t.merchants| && t.merchants[merchant].shown && HasPublishable(t, merchant) && !HasPreferred(t, merchant)
  }

  /** Its rows, by id. */
  function RetailersPublishingNothing(t: Tables): set<nat> {
    set m: nat | m < |t.merchants| && PublishesNothing(t, m)
  }

  // ---- no statement of an import trips a constraint ----

  lemma CreateKeeps(t: Tables, slug: string)
    requires Constraints(t) && FindMerchant(t.merchants, slug).None? && SlugFormed(slug)
    ensures Constraints(CreateMerchant(t, slug))
  {
    hide SlugFormed;
  }

  lemma UnpreferKeeps(t: Tables, i: nat)
    requires Constraints(t) && i < |t.routes|
    ensures Constraints(Unprefer(t, i))
  {
  }

  /** The status write is safe once the slot has been withdrawn from a route that is
      going, and the insert takes the slot only of a retailer that has none. */
  lemma UpsertKeeps(t: Tables, row: Route)
    requires Constraints(t) && row.merchant < |t.merchants|
    requires match FindRoute(t.routes, row.network, row.external)
      case Some(i) => t.routes[i].merchant == row.merchant && (t.routes[i].preferred ==> row.status == Active)
      case None => !HasRouteAt(t, row.merchant, row.network) && (row.preferred ==> row.Publishable() && !HasPreferred(t, row.merchant))
    ensures Constraints(UpsertRoute(t, row))
  {
  }

  lemma PreferKeeps(t: Tables, merchant: nat)
    requires Constraints(t) && Promotable(t, merchant).Some?
    ensures Constraints(Prefer(t, Promotable(t, merchant).value))
  {
  }

  lemma AnnounceKeeps(t: Tables, event: SlotEvent)
    requires Constraints(t) && !Announced(t, event)
    ensures Constraints(Announce(t, event))
  {
  }

  lemma DemoteNotSeenKeeps(t: Tables, network: string, started: int)
    requires Constraints(t)
    ensures Constraints(DemoteNotSeen(t, network, started))
  {
  }

  lemma MarkNotSeenKeeps(t: Tables, network: string, started: int)
    requires Constraints(t)
    requires forall i :: 0 <= i < |t.routes| && NotSeen(t.routes[i], network, started) ==> !t.routes[i].preferred
    ensures Constraints(MarkNotSeen(t, network, started))
  {
  }
}

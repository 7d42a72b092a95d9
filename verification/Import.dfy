/** Importing one network's catalogue (internal/cashback/catalogue/import.go): the
    specification of a run, retailer by retailer and then the reconciliation. */
module Import {
  import opened Options
  import opened Catalogue

  /** One importer at one network. `slugOf` is Slug, "" for a name with no Latin form;
      `fallback` is FallbackSlug, None when nothing can form a slug. */
  datatype Settings = Settings(network: string, brand: string, slugOf: string -> string, fallback: string -> Option<string>)

  /** Any functions, but that what they make is in the format of a slug. */
  ghost predicate MakesSlugs(s: Settings) {
    && (forall name :: s.slugOf(name) == "" || SlugFormed(s.slugOf(name)))
    && (forall external :: s.fallback(external).Some? ==> SlugFormed(s.fallback(external).value))
  }

  type Config = s: Settings | MakesSlugs(s) ghost witness Settings("", "", (_: string) => "", (_: string) => None)

  /** A retailer as the network reports it. */
  datatype Report = Report(external: string, name: string, status: Status)

  datatype Error = RouteConflict | NoSlug | NotAnnounced | Refused | Incomplete

  datatype Resolution = Known(merchant: nat) | Newcomer(slug: string) | Unresolved(error: Error)

  /** resolveMerchant and merchantForSlug: the network's own id first, then the slug,
      then the fallback. */
  function Resolve(c: Config, t: Tables, r: Report): Resolution {
    match FindRoute(t.routes, c.network, r.external)
    case Some(i) => Known(t.routes[i].merchant)
    case None =>
      if c.slugOf(r.name) != "" then ForSlug(c, t, c.slugOf(r.name), r)
      else match c.fallback(r.external)
        case None => Unresolved(NoSlug)
        case Some(slug) => ForSlug(c, t, slug, r)
  }

  function ForSlug(c: Config, t: Tables, slug: string, r: Report): Resolution {
    match FindMerchant(t.merchants, slug)
    case None => Newcomer(slug)
    case Some(m) =>
      if !HasRouteAt(t, m, c.network) then Known(m)
      else match c.fallback(r.external)
        case None => Unresolved(NoSlug)
        case Some(fallback) =>
          if fallback == slug then Unresolved(RouteConflict)
          else match FindMerchant(t.merchants, fallback)
            case None => Newcomer(fallback)
            case Some(other) => if HasRouteAt(t, other, c.network) then Unresolved(RouteConflict) else Known(other)
  }

  /** The counters of an ImportResult, with the demotions it made, in order. */
  datatype Progress = Progress(tables: Tables, seen: nat, created: nat, departed: nat, republished: nat, lost: nat, demoted: seq<nat>)

  datatype Outcome = Ok(p: Progress) | Abort(error: Error)

  /** handOver: the slot goes to the earliest publishable route, and what happened is
      announced unless nothing did. */
  function HandOver(p: Progress, merchant: nat, previous: Option<nat>, at: int): Outcome {
    match Promotable(p.tables, merchant)
    case None =>
      if previous.None? then Ok(p)
      else Announcing(p.(lost := p.lost + 1), SlotEvent.Unpublished(merchant, previous, at))
    case Some(i) =>
      var p' := p.(tables := Prefer(p.tables, i), republished := p.republished + (if previous.Some? then 1 else 0));
      Announcing(p', SlotEvent.Published(merchant, i, previous, at))
  }

  function Announcing(p: Progress, event: SlotEvent): Outcome {
    if Announced(p.tables, event) then Abort(NotAnnounced)
    else Ok(p.(tables := Announce(p.tables, event)))
  }

  /** The retailer a report belongs to, created if it is new. */
  function Settled(c: Config, p: Progress, r: Report): Outcome {
    match Resolve(c, p.tables, r)
    case Known(_) => Ok(p)
    case Newcomer(slug) => Ok(p.(tables := CreateMerchant(p.tables, slug), created := p.created + 1))
    case Unresolved(error) => Abort(error)
  }

  function MerchantOf(c: Config, t: Tables, r: Report): nat {
    match Resolve(c, t, r)
    case Known(m) => m
    case Newcomer(_) => |t.merchants|
    case Unresolved(_) => 0
  }

  /** DemotePreferredRoute's row: only a status that is not active withdraws the slot. */
  function Withdrawn(c: Config, t: Tables, r: Report): (i: Option<nat>)
    ensures i.Some? ==> i.value < |t.routes|
  {
    if r.status == Active then None else Demotable(t, c.network, r.external)
  }

  function AfterWithdrawal(c: Config, t: Tables, r: Report): Tables {
    match Withdrawn(c, t, r) case Some(i) => Unprefer(t, i) case None => t
  }

  /** The row written: it takes the slot only of a retailer that has nothing in it. */
  function RowOf(c: Config, t: Tables, at: int, r: Report, merchant: nat): Route {
    Route(merchant, c.network, r.external, c.brand, at, r.status, !HasPreferred(t, merchant) && r.status == Active, true)
  }

  function Rewritten(c: Config, t: Tables, at: int, r: Report, merchant: nat): Tables {
    var t2 := AfterWithdrawal(c, t, r);
    UpsertRoute(t2, RowOf(c, t2, at, r, merchant))
  }

  function Upserted(c: Config, p: Progress, at: int, r: Report, merchant: nat): Progress {
    p.(tables := Rewritten(c, p.tables, at, r, merchant), seen := p.seen + 1,
       demoted := match Withdrawn(c, p.tables, r) case Some(i) => p.demoted + [i] case None => p.demoted)
  }

  predicate IsPublished(t: Tables, network: string, external: string) { Demotable(t, network, external).Some? }

  /** writeRoute: withdraw the slot before the status that would forbid it, write the
      route, and hand the slot over if that left the retailer without one. */
  function WriteRoute(c: Config, p: Progress, at: int, r: Report): Outcome {
    match Settled(c, p, r)
    case Abort(error) => Abort(error)
    case Ok(p1) =>
      var merchant := MerchantOf(c, p.tables, r);
      var p3 := Upserted(c, p1, at, r, merchant);
      if HasPreferred(AfterWithdrawal(c, p1.tables, r), merchant) || IsPublished(p3.tables, c.network, r.external)
      then Ok(p3)
      else HandOver(p3, merchant, Withdrawn(c, p1.tables, r), at)
  }

  function WriteAll(c: Config, p: Progress, at: int, answer: seq<Report>): Outcome {
    if |answer| == 0 then Ok(p)
    else match WriteAll(c, p, at, answer[..|answer| - 1])
      case Abort(error) => Abort(error)
      case Ok(p1) => WriteRoute(c, p1, at, answer[|answer| - 1])
  }

  /** Hand over from each departed route in turn. */
  function HandOverAll(p: Progress, departed: seq<nat>, at: int): Outcome
    requires forall k :: 0 <= k < |departed| ==> departed[k] < |p.tables.routes|
  {
    if |departed| == 0 then Ok(p)
    else
      var last := departed[|departed| - 1];
      match HandOverAll(p, departed[..|departed| - 1], at)
      case Abort(error) => Abort(error)
      case Ok(p1) => HandOver(p1, p.tables.routes[last].merchant, Some(last), at)
  }

  /** What a complete answer leaves out has left: withdraw, mark, hand over. */
  function Departing(c: Config, p: Progress, at: int): Progress {
    var demoted := DemotedNotSeen(p.tables.routes, c.network, at);
    p.(tables := MarkNotSeen(DemoteNotSeen(p.tables, c.network, at), c.network, at), demoted := p.demoted + demoted,
       departed := DepartingCount(p.tables.routes, c.network, at))
  }

  function Reconcile(c: Config, p: Progress, at: int): Outcome {
    HandOverAll(Departing(c, p, at), DemotedNotSeen(p.tables.routes, c.network, at), at)
  }

  function Start(t: Tables): Progress { Progress(t, 0, 0, 0, 0, 0, []) }

  /** Importer.Run over an answer that ended, or did not. */
  function Run(c: Config, t: Tables, at: int, answer: seq<Report>, complete: bool): Outcome {
    match WriteAll(c, Start(t), at, answer)
    case Abort(error) => Abort(error)
    case Ok(p) => if complete then Reconcile(c, p, at) else Abort(Incomplete)
  }
}

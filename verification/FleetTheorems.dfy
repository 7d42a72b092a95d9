/** What every run of the fleet satisfies, and where its promises stop. */
module FleetTheorems {
  import opened Options
  import opened Ledger
  import opened Writer
  import opened Retry
  import opened Pipeline
  import opened Fleet

  ghost predicate AllPlausible(c: Config, actions: seq<Action>) { forall a <- actions :: Plausible(c, a) }

  /** A state some run reaches from an untouched database. */
  ghost predicate Reaches(c: Config, s: State, actions: seq<Action>) {
    c.caps.Valid() && Fresh(s) && AllPlausible(c, actions)
  }

  lemma {:induction false} RunKeeps(c: Config, s: State, actions: seq<Action>)
    requires Reaches(c, s, actions)
    ensures Inv(c, Run(c, s, actions)) && |Run(c, s, actions).workers| == |s.workers|
  {
    if |actions| == 0 {
      Starts(c, s);
    } else {
      var earlier := actions[..|actions| - 1];
      RunKeeps(c, s, earlier);
      StepKeeps(c, Run(c, s, earlier), actions[|actions| - 1]);
    }
  }

  /** Bounded overspend: over every interleaving of K replicas, crashes and lost
      acknowledgements included, no month's committed spend passes the cap's last
      affordable total by more than K of the dearest calls. */
  lemma {:induction false} BoundedOverspend(c: Config, s: State, actions: seq<Action>, month: nat)
    requires Reaches(c, s, actions)
    ensures ThisMonth(Run(c, s, actions).tables, month).spend.cost <= c.caps.monthly - 1 + |s.workers| * c.dearest
  {
    RunKeeps(c, s, actions);
    Scaled(0, Fleet.Outstanding(Run(c, s, actions).workers, month), c.dearest);
  }

  /** Conservation: in every reachable state each month's total is the cost of the rows
      generated in it plus its unbilled bookings, every movement is one provider bill,
      and no bill moves the ledger twice. */
  lemma {:induction false} Conservation(c: Config, s: State, actions: seq<Action>)
    requires Reaches(c, s, actions)
    ensures var t := Run(c, s, actions).tables;
      && Balanced(t) && OnePerKey(t.rows) && BooksMatchBills(Run(c, s, actions))
  {
    RunKeeps(c, s, actions);
  }

  /** Claim safety: for any hash, collisions included, a replica that may call the
      provider under a live claim is the only one so engaged on its pair, and the pair
      has no row. */
  lemma {:induction false} ClaimSafety(c: Config, s: State, actions: seq<Action>, w: nat, v: nat)
    requires Reaches(c, s, actions)
    requires var workers := Run(c, s, actions).workers;
      && w < |workers| && v < |workers| && w != v
      && workers[w].Holds() && workers[v].Holds() && !workers[w].stage.Claimed?
    ensures var now := Run(c, s, actions);
      && c.hash(now.workers[w].key) != c.hash(now.workers[v].key)
      && !Has(now.tables, now.workers[w].key)
  {
    RunKeeps(c, s, actions);
  }

  /** So a commit the pipeline drives stores its row, or refuses it on its own merits:
      it never finds the pair taken. */
  lemma {:induction false} NeverAlreadyTranslated(c: Config, s: State, actions: seq<Action>, w: nat)
    requires Reaches(c, s, actions)
    requires var now := Run(c, s, actions); IsPaid(now, w) && now.workers[w].alive && now.workers[w].stage.answer.Translated?
    ensures var now := Run(c, s, actions);
      var Busy(key, _, _, Paid(answer, call)) := now.workers[w];
      Judge(now.tables, c.caps, AsRecord(key, answer, call)) in {Stored, OverCeiling, SchemaRefusal}
  {
    RunKeeps(c, s, actions);
    var now := Run(c, s, actions);
    assert !Has(now.tables, now.workers[w].key);
  }

  /** The halt latch: in every reachable state a month is halted exactly when its spend
      has reached the cap, and has been announced exactly once if it is. */
  lemma {:induction false} HaltedExactlyAtCap(c: Config, s: State, actions: seq<Action>, month: nat)
    requires Reaches(c, s, actions)
    ensures var t := Run(c, s, actions).tables;
      && (ThisMonth(t, month).Halted() <==> c.caps.monthly <= ThisMonth(t, month).spend.cost)
      && Announcements(t.halts, month) == (if ThisMonth(t, month).Halted() then 1 else 0)
  {
    RunKeeps(c, s, actions);
  }

  lemma SettlementLatches(t: Tables, caps: Caps, now: Instant, key: Key, answer: Answer, call: nat, month: nat)
    requires answer.Honest() && answer.Owed().Bookable() && ThisMonth(t, month).Halted()
    ensures ThisMonth(Settlement(t, caps, now, key, answer, call), month).haltedAt == ThisMonth(t, month).haltedAt
  {
  }

  lemma StepKeepsHalt(c: Config, s: State, a: Action, month: nat)
    requires Inv(c, s) && ThisMonth(s.tables, month).Halted()
    ensures ThisMonth(Next(c, s, a).tables, month).haltedAt == ThisMonth(s.tables, month).haltedAt
  {
    hide Sound, LocksHeld, StillOpen, WithinBound, BooksMatchBills, Settlement, ThisMonth, Has, BudgetStop;
    if IsPaid(s, a.worker) {
      var Busy(key, now, _, Paid(answer, call)) := s.workers[a.worker];
      SettlementLatches(s.tables, c.caps, now, key, answer, call, month);
    }
  }

  lemma StepOnlyDrains(c: Config, s: State, a: Action, month: nat)
    requires ThisMonth(s.tables, month).Halted()
    ensures Fleet.Outstanding(Next(c, s, a).workers, month) <= Fleet.Outstanding(s.workers, month)
  {
    hide Settlement, ThisMonth, Has;
    if a.worker < |s.workers| {
      CountAfter(s.workers, a.worker, Next(c, s, a).workers[a.worker], month);
    }
  }

  /** Once set, a month's halt instant never moves, and the month can only drain: no
      further call becomes outstanding in it. */
  lemma {:induction false} HaltNeverMoves(c: Config, s: State, actions: seq<Action>, a: Action, month: nat)
    requires Reaches(c, s, actions) && Plausible(c, a)
    requires ThisMonth(Run(c, s, actions).tables, month).Halted()
    ensures var before := Run(c, s, actions); var after := Next(c, before, a);
      && ThisMonth(after.tables, month).haltedAt == ThisMonth(before.tables, month).haltedAt
      && Fleet.Outstanding(after.workers, month) <= Fleet.Outstanding(before.workers, month)
  {
    hide Inv, Next, Settlement;
    RunKeeps(c, s, actions);
    StepKeepsHalt(c, Run(c, s, actions), a, month);
    StepOnlyDrains(c, Run(c, s, actions), a, month);
  }

  // ---- the ceiling ----

  /** Every translation on record cost at most the per-article ceiling. */
  ghost predicate WithinCeiling(c: Config, t: Tables) { forall row <- t.rows :: row.result.spend.cost <= c.caps.perArticle }

  lemma SettlementWithinCeiling(c: Config, t: Tables, now: Instant, key: Key, answer: Answer, call: nat)
    requires WithinCeiling(c, t)
    ensures WithinCeiling(c, Settlement(t, c.caps, now, key, answer, call))
  {
    hide Settle;
    if answer.Translated? {
      var rec := AsRecord(key, answer, call);
      SettleInWords(Moved(t, c.caps, now, rec), c.caps, now);
      if Kept(Judge(t, c.caps, rec)) { EffectSettles(t, c.caps, now, rec); }
      hide Effect;
      if Judge(t, c.caps, rec) == Stored { assert rec.result.spend.cost <= c.caps.perArticle; }
    } else {
      SettleInWords(BookUnbilled(t, now, answer.Owed(), call), c.caps, now);
    }
  }

  /** The ceiling holds over every run: no result that cost more than it is ever kept, in
      any interleaving, whatever its cost does to the month. */
  lemma {:induction false} NothingOverTheCeilingIsKept(c: Config, s: State, actions: seq<Action>)
    requires WithinCeiling(c, s.tables)
    ensures WithinCeiling(c, Run(c, s, actions).tables)
  {
    hide Settlement, WithinCeiling, Has, BudgetStop;
    if |actions| > 0 {
      var before, a := Run(c, s, actions[..|actions| - 1]), actions[|actions| - 1];
      NothingOverTheCeilingIsKept(c, s, actions[..|actions| - 1]);
      if IsPaid(before, a.worker) {
        var Busy(key, now, _, Paid(answer, call)) := before.workers[a.worker];
        SettlementWithinCeiling(c, before.tables, now, key, answer, call);
      }
    }
  }

  // ---- no claim is stranded ----

  /** Every claim in the lock table is a live pair's. */
  ghost predicate ClaimsLive(c: Config, s: State) {
    forall h <- s.locks :: s.locks[h] < |s.workers| && s.workers[s.locks[h]].Holds() && c.hash(s.workers[s.locks[h]].key) == h
  }

  lemma StepKeepsClaimsLive(c: Config, s: State, a: Action)
    requires ClaimsLive(c, s)
    ensures ClaimsLive(c, Next(c, s, a))
  {
    hide Settlement, Has, BudgetStop;
  }

  /** A claim never outlives its pair: however replicas crash, lose their connections or
      their acknowledgements, every claim held belongs to a pair some replica is on. */
  lemma {:induction false} NoClaimIsStranded(c: Config, s: State, actions: seq<Action>)
    requires ClaimsLive(c, s)
    ensures ClaimsLive(c, Run(c, s, actions))
  {
    hide Next, ClaimsLive;
    if |actions| > 0 {
      NoClaimIsStranded(c, s, actions[..|actions| - 1]);
      StepKeepsClaimsLive(c, Run(c, s, actions[..|actions| - 1]), actions[|actions| - 1]);
    }
  }
}

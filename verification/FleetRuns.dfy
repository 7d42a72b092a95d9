/** Runs that show where the fleet's promises stop, and that its bound is exact. */
module FleetRuns {
  import opened Options
  import opened Ledger
  import opened Writer
  import opened Retry
  import opened Pipeline
  import opened Fleet
  import opened FleetTheorems
  import Runs

  lemma RunOne(c: Config, s: State, a: Action)
    ensures Run(c, s, [a]) == Next(c, s, a)
  {
    Runs.Follows(Step(c), [s, Next(c, s, a)], [a]);
  }

  /** Claim, re-check and clear one pair. */
  lemma {:induction false} Clears(c: Config, s: State, w: nat, key: Key, now: Instant) returns (actions: seq<Action>)
    requires w < |s.workers| && s.workers[w] == Idle && c.hash(key) !in s.locks && !Has(s.tables, key)
    requires !BudgetStop(c.caps, ThisMonth(s.tables, now.month))
    ensures AllPlausible(c, actions)
    ensures Run(c, s, actions) == s.(locks := s.locks[c.hash(key) := w], workers := s.workers[w := Busy(key, now, true, Cleared)])
  {
    hide Has, BudgetStop, ThisMonth;
    var locks := s.locks[c.hash(key) := w];
    var path := [
      s,
      s.(locks := locks, workers := s.workers[w := Busy(key, now, true, Claimed)]),
      s.(locks := locks, workers := s.workers[w := Busy(key, now, true, Checked)]),
      s.(locks := locks, workers := s.workers[w := Busy(key, now, true, Cleared)])];
    actions := [Claim(w, key, now), Recheck(w), ReadBudget(w)];
    assert forall i :: 0 <= i < |actions| ==> path[i + 1] == Next(c, path[i], actions[i]);
    Runs.Follows(Step(c), path, actions);
  }

  /** Pay for a cleared pair and commit what comes of it. */
  lemma {:induction false} Settles(c: Config, s: State, w: nat, answer: Answer) returns (actions: seq<Action>)
    requires w < |s.workers| && s.workers[w].Holds() && s.workers[w].stage == Cleared
    requires Plausible(c, Pay(w, answer))
    ensures AllPlausible(c, actions)
    ensures var Busy(key, now, _, _) := s.workers[w];
      Run(c, s, actions) == State(Settlement(s.tables, c.caps, now, key, answer, |s.billed|), s.locks - {c.hash(key)},
                                  s.workers[w := Idle], s.billed + [Bill(key, answer.Owed())])
  {
    hide Settlement;
    var Busy(key, now, _, _) := s.workers[w];
    var billed := s.billed + [Bill(key, answer.Owed())];
    var paid := s.(workers := s.workers[w := Busy(key, now, true, Paid(answer, |s.billed|))], billed := billed);
    var tables := Settlement(s.tables, c.caps, now, key, answer, |s.billed|);
    assert paid.workers[w := Idle] == s.workers[w := Idle];
    actions := [Pay(w, answer), Finish(w, Landed)];
    Runs.Follows(Step(c), [s, paid, State(tables, s.locks - {c.hash(key)}, s.workers[w := Idle], billed)], actions);
  }

  /** A whole pair, from a free claim to its commit. */
  lemma {:induction false} WholePair(c: Config, s: State, w: nat, key: Key, now: Instant, answer: Answer) returns (actions: seq<Action>)
    requires w < |s.workers| && s.workers[w] == Idle && c.hash(key) !in s.locks && !Has(s.tables, key)
    requires !BudgetStop(c.caps, ThisMonth(s.tables, now.month)) && Plausible(c, Pay(w, answer))
    ensures AllPlausible(c, actions)
    ensures Run(c, s, actions) == s.(tables := Settlement(s.tables, c.caps, now, key, answer, |s.billed|),
                                     billed := s.billed + [Bill(key, answer.Owed())])
  {
    hide Next, Settlement, Has, BudgetStop, ThisMonth;
    var clearing := Clears(c, s, w, key, now);
    var cleared := Run(c, s, clearing);
    var settling := Settles(c, cleared, w, answer);
    Runs.Appends(Step(c), s, clearing, settling);
    actions := clearing + settling;
    assert cleared.workers[w := Idle] == s.workers;
    assert cleared.locks - {c.hash(key)} == s.locks;
  }

  // ---- where the promises stop ----

  /** Nothing on record and nothing spent: every pair is open and the budget has room. */
  lemma UntouchedIsOpen(t: Tables, caps: Caps)
    requires caps.Valid() && Untouched(t)
    ensures forall key :: !Has(t, key)
    ensures forall month: nat :: !BudgetStop(caps, ThisMonth(t, month))
    ensures forall call: nat :: Movements(t, call) == 0
  {
  }

  /** Claim safety needs the live claim. A session that dies while its replica waits for
      the provider frees the pair; a second replica then pays for it and commits, and the
      first one's call is made all the same: one pair, billed twice, booked once. */
  lemma {:induction false} DeadClaimPaysTwice(c: Config, s: State, key: Key, now: Instant, answer: Answer)
    returns (actions: seq<Action>)
    requires c.caps.Valid() && Fresh(s) && s.workers == [Idle, Idle]
    requires answer.Translated? && answer.accepted && answer.result.spend == Spend(1, 0) && c.dearest >= 1
    ensures Reaches(c, s, actions)
    ensures Run(c, s, actions).billed == [Bill(key, Spend(1, 0)), Bill(key, Spend(1, 0))]
    ensures Movements(Run(c, s, actions).tables, 0) == 1 && Movements(Run(c, s, actions).tables, 1) == 0
  {
    hide Settlement, ThisMonth, Sound, Inv;
    UntouchedIsOpen(s.tables, c.caps);
    var clearing := Clears(c, s, 0, key, now);
    var cleared := Run(c, s, clearing);
    RunOne(c, cleared, LoseConnection(0));
    Runs.Appends(Step(c), s, clearing, [LoseConnection(0)]);
    var dying := clearing + [LoseConnection(0)];
    var dead := s.(workers := [Busy(key, now, false, Cleared), Idle]);
    assert Run(c, s, dying) == dead;
    var paying := WholePair(c, dead, 1, key, now, answer);
    Runs.Appends(Step(c), s, dying, paying);
    var paid := Run(c, dead, paying);
    NothingMovesTwice(c, s, dying + paying, key, now, answer);
    RunOne(c, paid, Pay(0, answer));
    Runs.Appends(Step(c), s, dying + paying, [Pay(0, answer)]);
    actions := dying + paying + [Pay(0, answer)];
  }

  lemma {:induction false} NothingMovesTwice(c: Config, s: State, actions: seq<Action>, key: Key, now: Instant, answer: Answer)
    requires Reaches(c, s, actions) && Run(c, s, actions).billed == [Bill(key, Spend(1, 0))]
    requires answer.Translated? && answer.accepted && answer.result.spend == Spend(1, 0)
    requires Run(c, s, actions).tables == Settlement(s.tables, c.caps, now, key, answer, 0)
    ensures Movements(Run(c, s, actions).tables, 0) == 1 && Movements(Run(c, s, actions).tables, 1) == 0
  {
    hide Settlement, Run;
    UntouchedIsOpen(s.tables, c.caps);
    SettlementBooksIff(s.tables, c.caps, now, key, answer, 0);
    Conservation(c, s, actions);
  }

  lemma RefusalSettlesNothing(t: Tables, caps: Caps, now: Instant, key: Key, answer: Answer, call: nat)
    requires caps.Valid() && answer.Translated? && !answer.accepted && !caps.OverCeiling(answer.result.spend.cost)
    ensures Settlement(t, caps, now, key, answer, call) == t
  {
  }

  /** A pair whose row the schema refuses is paid for again every cycle, and the ledger
      never learns of it: the writer books the refusal, the pipeline rolls it back. For
      any number of calls there is a run that bills them all and leaves the month at zero. */
  lemma {:induction false} RefusedPairBilledForever(c: Config, s: State, key: Key, now: Instant, answer: Answer, n: nat)
    returns (actions: seq<Action>)
    requires c.caps.Valid() && Fresh(s) && s.workers == [Idle]
    requires answer.Translated? && !answer.accepted && answer.result.spend == Spend(1, 0) && c.dearest >= 1
    ensures Reaches(c, s, actions)
    ensures var end := Run(c, s, actions);
      && |end.billed| == n && (forall i :: 0 <= i < n ==> end.billed[i] == Bill(key, Spend(1, 0)))
      && Untouched(end.tables) && end.workers == [Idle] && end.locks == map[]
  {
    hide Next, Untouched, Settlement, Has, BudgetStop, ThisMonth;
    actions := [];
    if n > 0 {
      actions := RefusedPairBilledForever(c, s, key, now, answer, n - 1);
      var before := Run(c, s, actions);
      UntouchedIsOpen(before.tables, c.caps);
      RefusalSettlesNothing(before.tables, c.caps, now, key, answer, |before.billed|);
      var again := WholePair(c, before, 0, key, now, answer);
      Runs.Appends(Step(c), s, actions, again);
      actions := actions + again;
    }
  }

  // ---- the bound is exact ----

  function Costing(cost: nat): Answer { CallFailed(Some(Spend(cost, 0)), ItemFailure) }

  lemma CostingCosts(t: Tables, caps: Caps, now: Instant, key: Key, cost: nat, call: nat)
    ensures var after := Settlement(t, caps, now, key, Costing(cost), call);
      && ThisMonth(after, now.month).spend.cost == ThisMonth(t, now.month).spend.cost + cost
      && after.rows == t.rows
  {
  }

  lemma {:induction false} BelowCapRuns(c: Config, s: State, actions: seq<Action>, month: nat)
    requires Reaches(c, s, actions) && ThisMonth(Run(c, s, actions).tables, month).spend.cost < c.caps.monthly
    ensures !BudgetStop(c.caps, ThisMonth(Run(c, s, actions).tables, month))
  {
    hide Run, Fresh;
    HaltedExactlyAtCap(c, s, actions, month);
  }

  /** A fleet at rest with nothing translated. */
  ghost predicate AtRest(s: State) {
    s.locks == map[] && s.tables.rows == [] && forall w :: 0 <= w < |s.workers| ==> s.workers[w] == Idle
  }

  /** One replica spends the month up to n, a micro-dollar at a time. */
  lemma {:induction false} SpendsUpTo(c: Config, s: State, key: Key, now: Instant, n: nat) returns (actions: seq<Action>)
    requires c.caps.Valid() && Fresh(s) && |s.workers| > 0 && AtRest(s) && c.dearest >= 1 && n < c.caps.monthly
    ensures Reaches(c, s, actions)
    ensures var end := Run(c, s, actions); AtRest(end) && ThisMonth(end.tables, now.month).spend.cost == n && |end.workers| == |s.workers|
  {
    hide Next, Settlement, BudgetStop;
    actions := [];
    if n > 0 {
      actions := SpendsUpTo(c, s, key, now, n - 1);
      BelowCapRuns(c, s, actions, now.month);
      var before := Run(c, s, actions);
      var again := WholePair(c, before, 0, key, now, Costing(1));
      CostingCosts(before.tables, c.caps, now, key, 1, |before.billed|);
      Runs.Appends(Step(c), s, actions, again);
      actions := actions + again;
    }
  }

  ghost predicate DistinctHashes(c: Config, keys: seq<Key>) {
    forall i, j :: 0 <= i < j < |keys| ==> c.hash(keys[i]) != c.hash(keys[j])
  }

  /** The first n replicas have cleared a pair each; the rest are at rest. */
  ghost predicate AllCleared(c: Config, s: State, keys: seq<Key>, now: Instant, from: nat, to: nat) {
    && |s.workers| == |keys| && to <= |keys|
    && (forall w :: 0 <= w < |keys| ==> s.workers[w] == if from <= w < to then Busy(keys[w], now, true, Cleared) else Idle)
    && (forall w :: 0 <= w < |keys| && c.hash(keys[w]) in s.locks ==> from <= w < to)
    && s.tables.rows == []
  }

  lemma {:induction false} ClearsAll(c: Config, s: State, keys: seq<Key>, now: Instant, n: nat) returns (actions: seq<Action>)
    requires AtRest(s) && |s.workers| == |keys| && n <= |keys| && DistinctHashes(c, keys)
    requires !BudgetStop(c.caps, ThisMonth(s.tables, now.month))
    ensures AllPlausible(c, actions)
    ensures var end := Run(c, s, actions); AllCleared(c, end, keys, now, 0, n) && end.tables == s.tables
  {
    hide Next, BudgetStop, ThisMonth;
    actions := [];
    if n > 0 {
      actions := ClearsAll(c, s, keys, now, n - 1);
      var before := Run(c, s, actions);
      var clearing := Clears(c, before, n - 1, keys[n - 1], now);
      Runs.Appends(Step(c), s, actions, clearing);
      actions := actions + clearing;
    }
  }

  lemma {:induction false} SpendsNext(c: Config, s: State, keys: seq<Key>, now: Instant, n: nat) returns (actions: seq<Action>)
    requires n < |keys| && AllCleared(c, s, keys, now, n, |keys|) && DistinctHashes(c, keys)
    ensures AllPlausible(c, actions)
    ensures var end := Run(c, s, actions);
      && AllCleared(c, end, keys, now, n + 1, |keys|)
      && ThisMonth(end.tables, now.month).spend.cost == ThisMonth(s.tables, now.month).spend.cost + c.dearest
  {
    hide Next, Settlement, ThisMonth;
    assert s.workers[n] == Busy(keys[n], now, true, Cleared);
    actions := Settles(c, s, n, Costing(c.dearest));
    CostingCosts(s.tables, c.caps, now, keys[n], c.dearest, |s.billed|);
  }

  lemma {:induction false} SpendsAll(c: Config, s: State, keys: seq<Key>, now: Instant, n: nat) returns (actions: seq<Action>)
    requires AllCleared(c, s, keys, now, 0, |keys|) && n <= |keys| && DistinctHashes(c, keys)
    ensures AllPlausible(c, actions)
    ensures var end := Run(c, s, actions);
      && AllCleared(c, end, keys, now, n, |keys|)
      && ThisMonth(end.tables, now.month).spend.cost == ThisMonth(s.tables, now.month).spend.cost + n * c.dearest
  {
    hide Next, ThisMonth, AllCleared;
    actions := [];
    if n > 0 {
      actions := SpendsAll(c, s, keys, now, n - 1);
      var spending := SpendsNext(c, Run(c, s, actions), keys, now, n - 1);
      Runs.Appends(Step(c), s, actions, spending);
      actions := actions + spending;
      assert n * c.dearest == (n - 1) * c.dearest + c.dearest;
    }
  }

  /** For any cap, any bound on one call and any number of replicas whose pairs do not
      collide, some run ends with the month's spend exactly on the bound. */
  lemma {:induction false} BoundIsAttained(c: Config, keys: seq<Key>, now: Instant) returns (s: State, actions: seq<Action>)
    requires c.caps.Valid() && c.dearest >= 1 && |keys| > 0 && DistinctHashes(c, keys)
    ensures Reaches(c, s, actions) && |s.workers| == |keys|
    ensures ThisMonth(Run(c, s, actions).tables, now.month).spend.cost == c.caps.monthly - 1 + |s.workers| * c.dearest
  {
    s := State(Tables([], map[], [], []), map[], seq(|keys|, _ => Idle), []);
    hide Next, BudgetStop, ThisMonth;
    var saving := SpendsUpTo(c, s, keys[0], now, c.caps.monthly - 1);
    BelowCapRuns(c, s, saving, now.month);
    var saved := Run(c, s, saving);
    var clearing := ClearsAll(c, saved, keys, now, |keys|);
    var cleared := Run(c, saved, clearing);
    var spending := SpendsAll(c, cleared, keys, now, |keys|);
    Runs.Appends(Step(c), s, saving, clearing);
    Runs.Appends(Step(c), s, saving + clearing, spending);
    actions := saving + clearing + spending;
  }
}

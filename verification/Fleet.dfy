/** The translation fleet: replicas interleaving one pair at a time over shared tables
    and advisory locks, with crashes, lost connections and lost acknowledgements
    (internal/translation/pipeline.go, lines 331-426). */
module Fleet {
  import opened Options
  import opened Ledger
  import opened Writer
  import opened Retry
  import opened Pipeline
  import Runs

  /** `hash` maps a pair onto the integer key space of the locks: any function at all.
      `dearest` bounds what one provider call is billed. */
  datatype Config = Config(caps: Caps, hash: Key -> int, dearest: nat)

  datatype Stage = Claimed | Checked | Cleared | Paid(answer: Answer, call: nat)

  /** A replica between pairs, or inside one pair's transaction. `alive` is whether the
      server still holds that transaction, and with it the claim. */
  datatype Worker = Idle | Busy(key: Key, now: Instant, alive: bool, stage: Stage) {
    predicate Holds() { Busy? && alive }
    /** Between the budget read and the transaction's end. */
    predicate Outstanding(month: nat) { Holds() && (stage.Cleared? || stage.Paid?) && now.month == month }
  }

  /** What the provider billed, call by call. */
  datatype Bill = Bill(key: Key, spend: Spend)

  datatype State = State(tables: Tables, locks: map<int, nat>, workers: seq<Worker>, billed: seq<Bill>)

  datatype Action =
    | Claim(worker: nat, key: Key, now: Instant)
    | Recheck(worker: nat)
    | ReadBudget(worker: nat)
    | Pay(worker: nat, answer: Answer)
    | Finish(worker: nat, fate: CommitFate)
    | Crash(worker: nat)
    | LoseConnection(worker: nat)

  /** The transaction is over and its claim, if the server still held it, with it. */
  function Release(c: Config, s: State, w: nat): State
    requires w < |s.workers| && s.workers[w].Busy?
  {
    s.(locks := if s.workers[w].alive then s.locks - {c.hash(s.workers[w].key)} else s.locks,
       workers := s.workers[w := Idle])
  }

  function Advance(s: State, w: nat, stage: Stage): State
    requires w < |s.workers| && s.workers[w].Busy?
  {
    s.(workers := s.workers[w := s.workers[w].(stage := stage)])
  }

  /** One step of one replica; an action its stage does not allow changes nothing. */
  function Next(c: Config, s: State, a: Action): State {
    var w := a.worker;
    if w >= |s.workers| then s
    else match (s.workers[w], a)
    case (Idle, Claim(_, key, now)) =>
      if c.hash(key) in s.locks then s  // somebody holds it: skip, never wait
      else s.(locks := s.locks[c.hash(key) := w], workers := s.workers[w := Busy(key, now, true, Claimed)])
    case (Busy(key, _, alive, Claimed), Recheck(_)) =>
      if !alive || Has(s.tables, key) then Release(c, s, w) else Advance(s, w, Checked)
    case (Busy(_, now, alive, Checked), ReadBudget(_)) =>
      if !alive || BudgetStop(c.caps, ThisMonth(s.tables, now.month)) then Release(c, s, w) else Advance(s, w, Cleared)
    case (Busy(key, _, _, Cleared), Pay(_, answer)) =>
      // the provider is called whether or not the connection has survived
      Advance(s, w, Paid(answer, |s.billed|)).(billed := s.billed + [Bill(key, answer.Owed())])
    case (Busy(key, now, alive, Paid(answer, call)), Finish(_, fate)) =>
      if !alive || fate.Refused? then Release(c, s, w)
      else Release(c, s, w).(tables := Settlement(s.tables, c.caps, now, key, answer, call))
    case (Busy(_, _, _, _), Crash(_)) => Release(c, s, w)
    case (Busy(key, now, true, stage), LoseConnection(_)) =>
      s.(locks := s.locks - {c.hash(key)}, workers := s.workers[w := Busy(key, now, false, stage)])
    case _ => s
  }

  function Step(c: Config): (State, Action) -> State { (s, a) => Next(c, s, a) }

  function Run(c: Config, s: State, actions: seq<Action>): State { Runs.Fold(Step(c), s, actions) }

  /** Provider answers cost no more than the bound, and never a negative amount. */
  predicate Plausible(c: Config, a: Action) {
    a.Pay? ==> a.answer.Honest() && a.answer.Owed().Bookable() && a.answer.Owed().cost <= c.dearest
  }

  ghost predicate Fresh(s: State) {
    Untouched(s.tables) && s.locks == map[] && s.billed == [] && forall w :: 0 <= w < |s.workers| ==> s.workers[w].Idle?
  }

  function Outstanding(workers: seq<Worker>, month: nat): nat {
    if |workers| == 0 then 0
    else Outstanding(workers[..|workers| - 1], month) + (if workers[|workers| - 1].Outstanding(month) then 1 else 0)
  }

  // ---- the invariant ----

  /** Every live claim is in the lock table under its pair's hash. */
  ghost predicate LocksHeld(c: Config, s: State) {
    forall w :: 0 <= w < |s.workers| && s.workers[w].Holds() ==>
      c.hash(s.workers[w].key) in s.locks && s.locks[c.hash(s.workers[w].key)] == w
  }

  /** A pair re-checked under a live claim stays untranslated. */
  ghost predicate StillOpen(s: State) {
    forall w :: 0 <= w < |s.workers| && s.workers[w].Holds() && !s.workers[w].stage.Claimed? ==> !Has(s.tables, s.workers[w].key)
  }

  /** The month's spend, with every outstanding call charged at the bound. */
  ghost predicate WithinBound(c: Config, s: State) {
    forall month: nat ::
      ThisMonth(s.tables, month).spend.cost + Outstanding(s.workers, month) * c.dearest
        <= c.caps.monthly - 1 + |s.workers| * c.dearest
  }

  ghost predicate IsPaid(s: State, w: nat) { w < |s.workers| && s.workers[w].Busy? && s.workers[w].stage.Paid? }

  /** Calls in hand are billed, distinct, and not yet on the books. */
  ghost predicate CallsInHand(c: Config, s: State) {
    && (forall w: nat :: IsPaid(s, w) ==>
          var Busy(key, _, _, Paid(answer, call)) := s.workers[w];
          && call < |s.billed| && s.billed[call] == Bill(key, answer.Owed())
          && answer.Honest() && answer.Owed().Bookable() && answer.Owed().cost <= c.dearest
          && Movements(s.tables, call) == 0)
    && (forall w: nat, v: nat :: w != v && IsPaid(s, w) && IsPaid(s, v) ==> s.workers[w].stage.call != s.workers[v].stage.call)
  }

  /** Every ledger movement is somebody's bill, and no bill moves the ledger twice. */
  ghost predicate BooksMatchBills(s: State) {
    && (forall row <- s.tables.rows :: row.call < |s.billed| && s.billed[row.call] == Bill(row.key, row.result.spend))
    && (forall booking <- s.tables.unbilled :: booking.call < |s.billed| && s.billed[booking.call].spend == booking.spend)
    && (forall call: nat :: Movements(s.tables, call) <= 1)
    && (forall call: nat :: call >= |s.billed| ==> Movements(s.tables, call) == 0)
  }

  ghost predicate Inv(c: Config, s: State) {
    && c.caps.Valid() && Sound(s.tables, c.caps)
    && LocksHeld(c, s) && StillOpen(s) && WithinBound(c, s) && CallsInHand(c, s) && BooksMatchBills(s)
  }

  lemma {:induction false} CountAfter(workers: seq<Worker>, w: nat, worker: Worker, month: nat)
    requires w < |workers|
    ensures Outstanding(workers[w := worker], month) + (if workers[w].Outstanding(month) then 1 else 0)
         == Outstanding(workers, month) + (if worker.Outstanding(month) then 1 else 0)
  {
    var last := |workers| - 1;
    if w == last {
      assert workers[w := worker][..last] == workers[..last];
    } else {
      assert workers[w := worker][..last] == workers[..last][w := worker];
      CountAfter(workers[..last], w, worker, month);
    }
  }

  lemma {:induction false} CountAtMostAll(workers: seq<Worker>, month: nat)
    ensures Outstanding(workers, month) <= |workers|
  {
    if |workers| > 0 { CountAtMostAll(workers[..|workers| - 1], month); }
  }

  lemma {:induction false} NoneOutstanding(workers: seq<Worker>, month: nat)
    requires forall w :: 0 <= w < |workers| ==> workers[w].Idle?
    ensures Outstanding(workers, month) == 0
  {
    if |workers| > 0 { NoneOutstanding(workers[..|workers| - 1], month); }
  }

  lemma Starts(c: Config, s: State)
    requires c.caps.Valid() && Fresh(s)
    ensures Inv(c, s)
  {
    UntouchedIsSound(s.tables, c.caps);
    forall month: nat
      ensures ThisMonth(s.tables, month).spend.cost + Outstanding(s.workers, month) * c.dearest
           <= c.caps.monthly - 1 + |s.workers| * c.dearest
    {
      NoneOutstanding(s.workers, month);
    }
  }

  // ---- every step keeps it ----

  lemma SettlementShape(t: Tables, caps: Caps, now: Instant, key: Key, answer: Answer, call: nat)
    requires caps.Valid() && Sound(t, caps) && !Has(t, key) && answer.Honest() && answer.Owed().Bookable()
    ensures var after := Settlement(t, caps, now, key, answer, call);
      && Sound(after, caps)
      && (forall month: nat :: ThisMonth(after, month).spend.cost
            <= ThisMonth(t, month).spend.cost + (if month == now.month then answer.Owed().cost else 0))
      && (|| after == t
          || (answer.Translated? && after.rows == t.rows + [Row(key, answer.result, now, call)] && after.unbilled == t.unbilled)
          || (after.rows == t.rows && after.unbilled == t.unbilled + [Booking(now.month, answer.Owed(), call)]))
  {
    hide Balanced, HaltsAtCap, AnnouncedOnce, OnePerKey;
    var after := Settlement(t, caps, now, key, answer, call);
    if after != t {
      if answer.Translated? && Judge(t, caps, AsRecord(key, answer, call)) == Stored {
        InsertThenSettle(t, caps, now, key, answer.result, call);
        SettleMovesNothing(Insert(t, now, key, answer.result, call), caps, now);
      } else {
        BookThenSettle(t, caps, now, answer.Owed(), call);
        SettleMovesNothing(BookUnbilled(t, now, answer.Owed(), call), caps, now);
      }
    }
  }

  lemma OneMore(t: Tables, after: Tables, row: Row, booking: Booking)
    requires row.call == booking.call
    requires || (after.rows == t.rows + [row] && after.unbilled == t.unbilled)
             || (after.rows == t.rows && after.unbilled == t.unbilled + [booking])
    ensures forall call: nat :: Movements(after, call) == Movements(t, call) + (if call == row.call then 1 else 0)
  {
    assert (t.rows + [row])[..|t.rows|] == t.rows;
    assert (t.unbilled + [booking])[..|t.unbilled|] == t.unbilled;
  }

  /** Dropping out, however it happens, only makes room. */
  lemma ReleaseKeeps(c: Config, s: State, w: nat)
    requires Inv(c, s) && w < |s.workers| && s.workers[w].Busy?
    ensures Inv(c, Release(c, s, w))
  {
    var s' := Release(c, s, w);
    forall v | 0 <= v < |s'.workers| && s'.workers[v].Holds()
      ensures c.hash(s'.workers[v].key) in s'.locks && s'.locks[c.hash(s'.workers[v].key)] == v
    {
      assert s.workers[v].Holds();
    }
    ChargedNoMore(c, s, s', w);
    assert forall v: nat :: IsPaid(s', v) ==> IsPaid(s, v) && s'.workers[v] == s.workers[v];
  }

  /** The bound survives when one worker stops being, or goes on being, outstanding. */
  lemma ChargedNoMore(c: Config, s: State, s': State, w: nat)
    requires WithinBound(c, s) && w < |s.workers| == |s'.workers| && s'.workers == s.workers[w := s'.workers[w]]
    requires forall month: nat :: ThisMonth(s'.tables, month).spend.cost == ThisMonth(s.tables, month).spend.cost
    requires forall month: nat :: s'.workers[w].Outstanding(month) ==> s.workers[w].Outstanding(month)
    ensures WithinBound(c, s')
  {
    forall month: nat
      ensures ThisMonth(s'.tables, month).spend.cost + Outstanding(s'.workers, month) * c.dearest
           <= c.caps.monthly - 1 + |s'.workers| * c.dearest
    {
      CountAfter(s.workers, w, s'.workers[w], month);
      Scaled(Outstanding(s'.workers, month), Outstanding(s.workers, month), c.dearest);
    }
  }

  lemma Scaled(few: nat, many: nat, each: nat)
    requires few <= many
    ensures few * each <= many * each
    ensures few < many ==> few * each + each <= many * each
  {
    if few < many { assert (few + 1) * each <= many * each; }
  }

  lemma ClaimKeeps(c: Config, s: State, a: Action)
    requires Inv(c, s) && a.Claim?
    ensures Inv(c, Next(c, s, a))
  {
    var s' := Next(c, s, a);
    if s' != s {
      forall v | 0 <= v < |s'.workers| && s'.workers[v].Holds()
        ensures c.hash(s'.workers[v].key) in s'.locks && s'.locks[c.hash(s'.workers[v].key)] == v
      {
        if v != a.worker { assert s.workers[v].Holds(); }
      }
      ChargedNoMore(c, s, s', a.worker);
      assert forall v: nat :: IsPaid(s', v) ==> IsPaid(s, v) && s'.workers[v] == s.workers[v];
    }
  }

  lemma RecheckKeeps(c: Config, s: State, a: Action)
    requires Inv(c, s) && a.Recheck?
    ensures Inv(c, Next(c, s, a))
  {
    var s', w := Next(c, s, a), a.worker;
    if w < |s.workers| && s.workers[w].Busy? && s.workers[w].stage.Claimed? {
      if s' == Release(c, s, w) {
        ReleaseKeeps(c, s, w);
      } else {
        ChargedNoMore(c, s, s', w);
        assert forall v: nat :: IsPaid(s', v) ==> IsPaid(s, v) && s'.workers[v] == s.workers[v];
      }
    }
  }

  /** The budget read is where a call becomes outstanding, and it does so only below
      the cap: with at most one outstanding call each, the bound holds afresh. */
  lemma ReadBudgetKeeps(c: Config, s: State, a: Action)
    requires Inv(c, s) && a.ReadBudget?
    ensures Inv(c, Next(c, s, a))
  {
    var s', w := Next(c, s, a), a.worker;
    if w < |s.workers| && s.workers[w].Busy? && s.workers[w].stage.Checked? {
      if !s.workers[w].alive || BudgetStop(c.caps, ThisMonth(s.tables, s.workers[w].now.month)) {
        ReleaseKeeps(c, s, w);
      } else {
        forall month: nat
          ensures ThisMonth(s'.tables, month).spend.cost + Outstanding(s'.workers, month) * c.dearest
               <= c.caps.monthly - 1 + |s'.workers| * c.dearest
        {
          CountAfter(s.workers, w, s'.workers[w], month);
          CountAtMostAll(s'.workers, month);
          Scaled(Outstanding(s'.workers, month), |s'.workers|, c.dearest);
        }
        assert forall v: nat :: IsPaid(s', v) ==> IsPaid(s, v) && s'.workers[v] == s.workers[v];
      }
    }
  }

  lemma PayKeeps(c: Config, s: State, a: Action)
    requires Inv(c, s) && a.Pay? && Plausible(c, a)
    ensures Inv(c, Next(c, s, a))
  {
    hide Sound, WithinBound, Settlement;
    var s', w := Next(c, s, a), a.worker;
    if s' != s {
      ChargedNoMore(c, s, s', w);
      assert forall v: nat :: v != w && IsPaid(s', v) ==> IsPaid(s, v) && s'.workers[v] == s.workers[v];
      assert forall call: nat :: call < |s.billed| ==> s'.billed[call] == s.billed[call];
    }
  }

  lemma LoseConnectionKeeps(c: Config, s: State, a: Action)
    requires Inv(c, s) && a.LoseConnection?
    ensures Inv(c, Next(c, s, a))
  {
    var s', w := Next(c, s, a), a.worker;
    if s' != s {
      forall v | 0 <= v < |s'.workers| && s'.workers[v].Holds()
        ensures c.hash(s'.workers[v].key) in s'.locks && s'.locks[c.hash(s'.workers[v].key)] == v
      {
        assert s.workers[v].Holds();
      }
      ChargedNoMore(c, s, s', w);
      assert forall v: nat :: IsPaid(s', v) ==>
        IsPaid(s, v) && s'.workers[v].stage == s.workers[v].stage && s'.workers[v].key == s.workers[v].key;
    }
  }

  /** A commit trades one outstanding call, charged at the bound, for what it cost. */
  lemma FinishWithin(c: Config, s: State, w: nat, tables: Tables)
    requires Inv(c, s) && IsPaid(s, w) && s.workers[w].alive
    requires tables == Settlement(s.tables, c.caps, s.workers[w].now, s.workers[w].key, s.workers[w].stage.answer, s.workers[w].stage.call)
    ensures WithinBound(c, Release(c, s, w).(tables := tables))
  {
    var Busy(key, now, _, Paid(answer, call)) := s.workers[w];
    var s' := Release(c, s, w).(tables := tables);
    SettlementShape(s.tables, c.caps, now, key, answer, call);
    forall month: nat
      ensures ThisMonth(s'.tables, month).spend.cost + Outstanding(s'.workers, month) * c.dearest
           <= c.caps.monthly - 1 + |s'.workers| * c.dearest
    {
      CountAfter(s.workers, w, Idle, month);
      Scaled(Outstanding(s'.workers, month), Outstanding(s.workers, month), c.dearest);
    }
  }

  /** A live, paid worker's commit, on the state `s'` it leaves. */
  ghost predicate Commits(c: Config, s: State, w: nat, s': State) {
    && IsPaid(s, w) && s.workers[w].alive
    && s' == Release(c, s, w).(tables := Settlement(s.tables, c.caps, s.workers[w].now, s.workers[w].key,
                                                    s.workers[w].stage.answer, s.workers[w].stage.call))
  }

  /** Nobody else holds the pair the row lands on, whatever the hash does. */
  lemma FinishLeavesOpen(c: Config, s: State, w: nat, s': State)
    requires Inv(c, s) && Commits(c, s, w, s')
    ensures StillOpen(s')
  {
    var Busy(key, now, _, Paid(answer, call)) := s.workers[w];
    SettlementShape(s.tables, c.caps, now, key, answer, call);
    forall v | 0 <= v < |s'.workers| && s'.workers[v].Holds() && !s'.workers[v].stage.Claimed?
      ensures !Has(s'.tables, s'.workers[v].key)
    {
      assert s.workers[v].Holds() && s.workers[w].Holds();
      assert !Has(s.tables, s.workers[v].key);
    }
  }

  lemma FinishBooks(c: Config, s: State, w: nat, s': State)
    requires Inv(c, s) && Commits(c, s, w, s')
    ensures CallsInHand(c, s') && BooksMatchBills(s')
  {
    var Busy(key, now, _, Paid(answer, call)) := s.workers[w];
    SettlementShape(s.tables, c.caps, now, key, answer, call);
    if s'.tables != s.tables {
      var row := Row(key, if answer.Translated? then answer.result else Translation("", "", "", "", answer.Owed()), now, call);
      OneMore(s.tables, s'.tables, row, Booking(now.month, answer.Owed(), call));
    }
    assert forall v: nat :: IsPaid(s', v) ==> v != w && IsPaid(s, v) && s'.workers[v] == s.workers[v];
  }

  lemma FinishKeeps(c: Config, s: State, a: Action)
    requires Inv(c, s) && a.Finish?
    ensures Inv(c, Next(c, s, a))
  {
    hide Sound, LocksHeld, StillOpen, WithinBound, CallsInHand, BooksMatchBills, Settlement;
    var s', w := Next(c, s, a), a.worker;
    if IsPaid(s, w) {
      ReleaseKeeps(c, s, w);
      if s.workers[w].alive && !a.fate.Refused? {
        CommitIsSound(c, s, w, s');
        FinishWithin(c, s, w, s'.tables);
        FinishLeavesOpen(c, s, w, s');
        FinishBooks(c, s, w, s');
        LocksDoNotRead(c, Release(c, s, w), s'.tables);
      }
    }
  }

  lemma CommitIsSound(c: Config, s: State, w: nat, s': State)
    requires Inv(c, s) && Commits(c, s, w, s')
    ensures Sound(s'.tables, c.caps)
  {
    SettlementShape(s.tables, c.caps, s.workers[w].now, s.workers[w].key, s.workers[w].stage.answer, s.workers[w].stage.call);
  }

  lemma LocksDoNotRead(c: Config, s: State, tables: Tables)
    requires LocksHeld(c, s)
    ensures LocksHeld(c, s.(tables := tables))
  {
  }

  lemma CrashKeeps(c: Config, s: State, a: Action)
    requires Inv(c, s) && a.Crash?
    ensures Inv(c, Next(c, s, a))
  {
    if a.worker < |s.workers| && s.workers[a.worker].Busy? { ReleaseKeeps(c, s, a.worker); }
  }

  lemma StepKeeps(c: Config, s: State, a: Action)
    requires Inv(c, s) && Plausible(c, a)
    ensures Inv(c, Next(c, s, a)) && |Next(c, s, a).workers| == |s.workers|
  {
    hide Inv, Plausible;
    match a {
      case Claim(_, _, _) => ClaimKeeps(c, s, a);
      case Recheck(_) => RecheckKeeps(c, s, a);
      case ReadBudget(_) => ReadBudgetKeeps(c, s, a);
      case Pay(_, _) => PayKeeps(c, s, a);
      case Finish(_, _) => FinishKeeps(c, s, a);
      case Crash(_) => CrashKeeps(c, s, a);
      case LoseConnection(_) => LoseConnectionKeeps(c, s, a);
    }
  }
}

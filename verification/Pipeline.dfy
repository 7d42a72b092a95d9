/** One replica's cycle: what to translate next, and how one pair is paid for and
    settled (internal/translation/pipeline.go and locales.go). */
module Pipeline {
  import opened Options
  import opened Ledger
  import opened Writer
  import opened Retry

  // ---- one pair ----

  datatype Failure = ItemFailure | ProviderFailure | OtherFailure

  /** What the provider answers. A failure can still have cost money. */
  datatype Answer =
    | Translated(result: Translation, accepted: bool)
    | CallFailed(spend: Option<Spend>, failure: Failure)
  {
    function Owed(): Spend {
      match this
      case Translated(result, _) => result.spend
      case CallFailed(Some(spend), _) => spend
      case CallFailed(None, _) => Nothing()
    }
    predicate Honest() { Translated? && accepted ==> result.spend.Bookable() }
  }

  datatype Outcome = Done | Failing(failure: Failure)
  datatype PairReply = PairReply(stop: bool, called: bool, outcome: Outcome) {
    /** RunOnce steps over an item's failure; anything else ends the cycle. */
    predicate GoesOn() { !stop && outcome in {Done, Failing(ItemFailure)} }
  }

  const RECORD_ATTEMPTS := 3

  /** The luck of one pair's transaction. `attempts` has one plan for each Record
      call, and `waits` says whether the wait after it ran its course. */
  datatype PairPlan = PairPlan(begin: Fate, claim: Fate, claimed: bool, recheck: Fate, budget: Fate,
                               attempts: seq<Plan>, waits: seq<bool>, booking: Plan, commit: CommitFate) {
    predicate Complete() { |attempts| == RECORD_ATTEMPTS && |waits| == RECORD_ATTEMPTS }
    /** The connection survives every attempt, and no wait is cut short. */
    predicate Patient()
      requires Complete()
    {
      forall k :: 0 <= k < RECORD_ATTEMPTS ==> attempts[k].NeverLost() && waits[k]
    }
    predicate AllFine() {
      && begin.Fine? && claim.Fine? && claimed && recheck.Fine? && budget.Fine? && booking.AllFine() && commit.Landed?
      && forall plan <- attempts :: plan.AllFine()
    }
  }

  /** The calls that come before attempt n all ask for another. */
  ghost predicate StillAsking(t: Tables, caps: Caps, now: Instant, rec: Record, plan: PairPlan, n: nat)
    requires plan.Complete() && n <= RECORD_ATTEMPTS
  {
    forall k :: 0 <= k < n ==> plan.attempts[k].AsksAgain(t, caps, now, rec)
  }

  /** Attempt n is the first that does not ask for another, and it goes through. */
  ghost predicate SettlesAt(t: Tables, caps: Caps, now: Instant, rec: Record, plan: PairPlan, n: nat)
    requires plan.Complete() && n < RECORD_ATTEMPTS
  {
    StillAsking(t, caps, now, rec, plan, n) && plan.attempts[n].Completes(t, caps, now, rec)
  }

  predicate BudgetStop(caps: Caps, month: MonthRow) {
    month.Halted() || caps.Reached(month.spend.cost)
  }

  function AsRecord(key: Key, answer: Answer, call: nat): Record
    requires answer.Translated?
  {
    Record(key, answer.result, answer.accepted, call)
  }

  /** The verdicts whose settlement the pipeline commits. A schema refusal is not
      among them: it falls to the branch that lets the rollback stand. */
  predicate Kept(verdict: Verdict) { verdict in {Stored, OwnRow, OverCeiling, AlreadyTranslated} }

  /** The tables a paid-for answer leaves once the pair's transaction has landed. */
  function Settlement(t: Tables, caps: Caps, now: Instant, key: Key, answer: Answer, call: nat): Tables {
    match answer
    case Translated(_, _) =>
      var rec := AsRecord(key, answer, call);
      if Kept(Judge(t, caps, rec)) then Effect(t, caps, now, rec) else t
    case CallFailed(None, _) => t
    case CallFailed(Some(spend), _) =>
      if spend.Bookable() then Settle(BookUnbilled(t, now, spend, call), caps, now) else t
  }

  /** How far a pair gets before the provider. */
  datatype Approach = Unclaimed | OnRecord | MonthDone | ProviderAsked | Stuck

  /** The statements before the provider call, over their fates and the tables: the claim
      is tried and never waited for, a pair on record is skipped, a month that is halted
      or at its cap ends the cycle, and the first statement that fails ends the pair. */
  ghost predicate Approaches(caps: Caps, before: Tables, now: Instant, key: Key, plan: PairPlan, alive: bool, approach: Approach) {
    var began := alive && plan.begin.Fine? && plan.claim.Fine?;
    var checked := began && plan.claimed && plan.recheck.Fine?;
    var taken := exists row <- before.rows :: row.key == key;
    var read := checked && !taken && plan.budget.Fine?;
    var month := ThisMonth(before, now.month);
    var done := month.haltedAt.Some? || caps.monthly <= month.spend.cost;
    && (approach == Unclaimed <==> began && !plan.claimed)
    && (approach == OnRecord <==> checked && taken)
    && (approach == MonthDone <==> read && done)
    && (approach == ProviderAsked <==> read && !done)
    && (approach == Stuck <==> !began || (plan.claimed && !checked) || (checked && !taken && !plan.budget.Fine?))
  }

  ghost function ApproachOf(caps: Caps, before: Tables, now: Instant, key: Key, plan: PairPlan, alive: bool): (approach: Approach)
    ensures Approaches(caps, before, now, key, plan, alive, approach)
  {
    if !(alive && plan.begin.Fine? && plan.claim.Fine?) then Stuck
    else if !plan.claimed then Unclaimed
    else if !plan.recheck.Fine? then Stuck
    else if Has(before, key) then OnRecord
    else if !plan.budget.Fine? then Stuck
    else if BudgetStop(caps, ThisMonth(before, now.month)) then MonthDone
    else ProviderAsked
  }

  /** The reply before the provider is asked, and whether it is. */
  ghost predicate Answers(approach: Approach, reply: PairReply) {
    match approach
    case Unclaimed => reply == PairReply(false, false, Done)
    case OnRecord => reply == PairReply(false, false, Done)
    case MonthDone => reply == PairReply(true, false, Done)
    case Stuck => reply == PairReply(false, false, Failing(OtherFailure))
    case ProviderAsked => reply.called
  }

  /** The reply to a call that was made, when nothing is in the way: the provider's own
      failure, once what it cost is booked; success for a result that is stored or whose
      refusal is settled; and an error for one the schema refuses, or for an amount nobody
      can be charged. The cycle is told to stop when that leaves the month halted. */
  ghost predicate AnswersPaid(caps: Caps, before: Tables, after: Tables, now: Instant, answer: Answer, reply: PairReply) {
    var halted := ThisMonth(after, now.month).haltedAt.Some?;
    match answer
    case CallFailed(None, failure) => reply == PairReply(false, true, Failing(failure))
    case CallFailed(Some(spend), failure) =>
      reply == if 0 <= spend.cost && 0 <= spend.unmetered then PairReply(halted, true, Failing(failure)) else PairReply(false, true, Failing(OtherFailure))
    case Translated(result, accepted) =>
      reply == if accepted || (caps.perArticle < result.spend.cost && 0 <= result.spend.unmetered) then PairReply(halted, true, Done)
               else PairReply(false, true, Failing(OtherFailure))
  }

  /** What a pair's reply means for the tables. A skip is free, and no call starts on a
      pair on record or a month that is done; the tables move by the whole settlement or
      not at all; and a reply that lets the cycle go on, or ends it without an error of
      its own, is given only over money that is on the ledger. */
  ghost predicate PairMeans(caps: Caps, before: Tables, after: Tables, now: Instant, key: Key, call: nat, answer: Answer, reply: PairReply) {
    && (!reply.called ==> after == before)
    && (reply.called ==> !Has(before, key) && !BudgetStop(caps, ThisMonth(before, now.month)))
    && after in {before, Settlement(before, caps, now, key, answer, call)}
    && (reply.called && reply.outcome in {Done, Failing(ItemFailure), Failing(ProviderFailure)} && !answer.Owed().IsZero() ==>
          && Movements(after, call) == Movements(before, call) + 1
          && after == Settlement(before, caps, now, key, answer, call)
          && (reply.stop <==> ThisMonth(after, now.month).Halted()))
  }

  lemma BookingMoves(t: Tables, caps: Caps, now: Instant, spend: Spend, call: nat)
    ensures Movements(Settle(BookUnbilled(t, now, spend, call), caps, now), call) == Movements(t, call) + 1
  {
    var booked := BookUnbilled(t, now, spend, call);
    assert booked.unbilled[..|t.unbilled|] == t.unbilled;
  }

  /** What the schema accepts or what is too dear is kept, and nothing else. */
  lemma KeptWhen(t: Tables, caps: Caps, rec: Record)
    requires caps.Valid() && rec.Honest()
    ensures (Judge(t, caps, rec).Settles() && Kept(Judge(t, caps, rec))) <==>
      rec.accepted || (caps.perArticle < rec.result.spend.cost && 0 <= rec.result.spend.unmetered)
  {
  }

  class PairTranslator {
    const caps: Caps
    const db: Session
    const writer: TranslationWriter

    constructor (db: Session, caps: Caps)
      ensures this.db == db && this.caps == caps && writer.db == db && writer.caps == caps
    {
      this.db, this.caps := db, caps;
      writer := new TranslationWriter(db, caps);
    }

    ghost predicate Wired() { writer.db == db && writer.caps == caps && caps.Valid() }

    /** Drive the writer through its retry contract. Inside the pair's transaction a
        call that is not settled leaves no trace. */
    method RecordRetrying(now: Instant, rec: Record, plan: PairPlan) returns (reply: Reply)
      requires Wired() && rec.Honest() && plan.Complete() && db.saved != []
      modifies db
      ensures db.saved == old(db.saved)
      ensures reply.Settled? ==> db.alive
      ensures Means(old(db.tables), db.tables, caps, now, rec, reply, false)
      ensures old(db.alive) && plan.AllFine() && Judge(old(db.tables), caps, rec).Settles() ==> reply.Settled?
      // transient failures are ridden out: the first attempt that does not ask for
      // another decides, and while all ask there is no other answer
      ensures old(db.alive) && plan.Patient() ==>
        && (reply.Settled? <==> exists n: nat :: n < RECORD_ATTEMPTS && SettlesAt(old(db.tables), caps, now, rec, plan, n))
        && (reply.Retryable? <==> StillAsking(old(db.tables), caps, now, rec, plan, RECORD_ATTEMPTS))
    {
      reply := Retryable;
      for attempt := 0 to RECORD_ATTEMPTS
        invariant db.saved == old(db.saved) && reply.Retryable? && db.tables == old(db.tables)
        invariant old(db.alive) && plan.Patient() ==> db.alive && StillAsking(old(db.tables), caps, now, rec, plan, attempt)
        invariant attempt > 0 ==> !(old(db.alive) && plan.AllFine() && Judge(old(db.tables), caps, rec).Settles())
        invariant attempt == 0 ==> db.alive == old(db.alive)
      {
        if plan.AllFine() && Judge(db.tables, caps, rec).Settles() { FineCompletes(db.tables, caps, now, rec, plan.attempts[attempt]); }
        reply := writer.Record(now, rec, plan.attempts[attempt]);
        assert old(db.alive) && plan.Patient() && reply.Settled? ==> SettlesAt(old(db.tables), caps, now, rec, plan, attempt);
        if !reply.Retryable? { return; }
        if attempt < RECORD_ATTEMPTS - 1 && !plan.waits[attempt] { return; }
      }
    }

    /** settleFailedCall: a failed call that cost money still reaches the ledger. A
        booking that fails is never reported as the item's failure. */
    method SettleFailedCall(now: Instant, spend: Option<Spend>, failure: Failure, call: nat, plan: PairPlan)
      returns (stop: bool, failed: Failure)
      requires Wired() && |db.saved| == 1
      modifies db
      ensures spend.None? ==> !stop && failed == failure && db.tables == old(db.tables) && db.saved == old(db.saved)
      ensures db.saved == old(db.saved) || db.saved == []
      ensures spend.Some? && db.saved == [] ==>
        && spend.value.Bookable()
        && db.tables == Settle(BookUnbilled(old(db.tables), now, spend.value, call), caps, now)
      ensures spend.Some? && (stop || failed != OtherFailure) ==>
        && db.saved == [] && failed == failure
        && stop == ThisMonth(db.tables, now.month).Halted()
      ensures spend.Some? && spend.value.Bookable() && old(db.alive) && plan.AllFine() ==>
        db.saved == [] && failed == failure && stop == ThisMonth(db.tables, now.month).Halted()
      ensures spend.Some? && (spend.value.cost < 0 || spend.value.unmetered < 0) ==> !stop && failed == OtherFailure
      ensures failed in {failure, OtherFailure}
    {
      if spend.None? { return false, failure; }
      var ok, _, haltedAt := writer.RecordRefusedSpend(now, spend.value, call, plan.booking);
      if !ok { return false, OtherFailure; }
      ok := db.Commit(plan.commit);
      if !ok { return false, OtherFailure; }
      return haltedAt.Some?, failure;
    }

    /** translatePair: claim, re-check, budget, provider, record - in one transaction.
        `now` is that transaction's now(), `answer` what the provider says if asked. */
    method TranslatePair(now: Instant, key: Key, call: nat, answer: Answer, plan: PairPlan) returns (reply: PairReply)
      requires Wired() && answer.Honest() && plan.Complete() && db.saved == []
      modifies db
      ensures db.saved == []
      ensures PairMeans(caps, old(db.tables), db.tables, now, key, call, answer, reply)
      // the reply rests on how far the pair got: nothing else lets the cycle go on or ends it
      ensures Answers(ApproachOf(caps, old(db.tables), now, key, plan, old(db.alive)), reply)
      ensures reply.called && plan.AllFine() ==> AnswersPaid(caps, old(db.tables), db.tables, now, answer, reply)
      ensures reply.called ==> reply.outcome == Failing(OtherFailure) || reply.outcome == (if answer.CallFailed? then Failing(answer.failure) else Done)
      // and with nothing in the way the settlement lands
      ensures old(db.alive) && plan.AllFine() && !Has(old(db.tables), key) && !BudgetStop(caps, ThisMonth(old(db.tables), now.month))
        ==> reply.called && db.tables == Settlement(old(db.tables), caps, now, key, answer, call)
    {
      reply := PairReply(false, false, Failing(OtherFailure));
      var ok := db.Begin(plan.begin);
      if ok {
        ok := db.Run(plan.claim);
        if ok && !plan.claimed {
          reply := PairReply(false, false, Done);
        } else if ok {
          ok := db.Run(plan.recheck);
          if ok && Find(db.tables.rows, key).Some? {
            reply := PairReply(false, false, Done);
          } else if ok {
            ok := db.Run(plan.budget);
            if ok && BudgetStop(caps, ThisMonth(db.tables, now.month)) {
              reply := PairReply(true, false, Done);
            } else if ok {
              reply := PayAndRecord(now, key, call, answer, plan);
            }
          }
        }
      }
      db.Rollback(0);
    }

    /** translatePair from the provider call on. */
    method PayAndRecord(now: Instant, key: Key, call: nat, answer: Answer, plan: PairPlan) returns (reply: PairReply)
      requires Wired() && answer.Honest() && plan.Complete()
      requires db.saved == [db.tables] && !Has(db.tables, key)
      modifies db
      ensures reply.called
      ensures db.saved == old(db.saved) || db.saved == []
      ensures db.saved == [] ==> db.tables == Settlement(old(db.tables), caps, now, key, answer, call)
      ensures reply.outcome in {Done, Failing(ItemFailure), Failing(ProviderFailure)} && !answer.Owed().IsZero() ==>
        && db.saved == []
        && Movements(db.tables, call) == Movements(old(db.tables), call) + 1
        && (reply.stop <==> ThisMonth(db.tables, now.month).Halted())
      ensures old(db.alive) && plan.AllFine() && db.saved != [] ==> old(db.tables) == Settlement(old(db.tables), caps, now, key, answer, call)
      ensures old(db.alive) && plan.AllFine() ==> AnswersPaid(caps, old(db.tables), db.tables, now, answer, reply)
      ensures reply.outcome == Failing(OtherFailure) || reply.outcome == (if answer.CallFailed? then Failing(answer.failure) else Done)
    {
      if answer.Translated? { KeptWhen(db.tables, caps, AsRecord(key, answer, call)); }
      BookingMoves(db.tables, caps, now, answer.Owed(), call);
      hide Settle, BookUnbilled, Effect, Judge;
      if answer.CallFailed? {
        var stop, failed := SettleFailedCall(now, answer.spend, answer.failure, call, plan);
        return PairReply(stop, true, Failing(failed));
      }
      var rec := AsRecord(key, answer, call);
      LandingMoves(db.tables, caps, now, rec);
      var recorded := RecordRetrying(now, rec, plan);
      if recorded.Settled? && Kept(recorded.verdict) {
        var ok := db.Commit(plan.commit);
        return if ok then PairReply(recorded.haltedAt.Some?, true, Done) else PairReply(false, true, Failing(OtherFailure));
      }
      return PairReply(false, true, Failing(OtherFailure));
    }
  }

  /** The pipeline's settlement leaves a paid-for call off the ledger, however well
      everything goes, exactly when the schema refuses its result under the ceiling, where
      the writer books the refusal and the pipeline's rollback takes the booking back; or
      when the very result is on record already. */
  lemma SettlementBooksIff(t: Tables, caps: Caps, now: Instant, key: Key, answer: Answer, call: nat)
    requires caps.Valid() && answer.Honest() && (answer.Owed().cost != 0 || answer.Owed().unmetered != 0)
    requires 0 <= answer.Owed().cost && 0 <= answer.Owed().unmetered
    ensures Movements(Settlement(t, caps, now, key, answer, call), call) == Movements(t, call) + 1
       <==> !(answer.Translated? && answer.result.spend.cost <= caps.perArticle && (!answer.accepted || HeldAlike(t, AsRecord(key, answer, call))))
  {
    if answer.Translated? {
      LandingMoves(t, caps, now, AsRecord(key, answer, call));
    } else {
      BookingMoves(t, caps, now, answer.Owed(), call);
    }
  }

  // ---- what a cycle leaves on the ledger ----

  /** One pair of a cycle, with the tables it found and left. */
  datatype Turn = Turn(before: Tables, after: Tables, now: Instant, key: Key, call: nat, answer: Answer)

  /** The turns of a cycle whose pairs were answered so: each is a TranslatePair, other
      workers act between them, and no two calls are the same. */
  ghost predicate TurnsOf(caps: Caps, turns: seq<Turn>, reply: nat -> PairReply) {
    && (forall n :: 0 <= n < |turns| ==>
          PairMeans(caps, turns[n].before, turns[n].after, turns[n].now, turns[n].key, turns[n].call, turns[n].answer, reply(n)))
    && (forall n, k: nat :: 0 <= n && n + 1 < |turns| && k < |turns| ==> Between(turns, n, k))
    && (forall i, j :: 0 <= i < j < |turns| ==> turns[i].call != turns[j].call)
    && (forall k :: 0 <= k < |turns| ==> Movements(turns[0].before, turns[k].call) == 0)
  }

  /** What others do between turn n and the next has nothing of the k-th call. */
  ghost predicate Between(turns: seq<Turn>, n: nat, k: nat)
    requires n + 1 < |turns| && k < |turns|
  {
    Without(turns[n].after, turns[n + 1].before, turns[k].call)
  }

  /** A call was made on this turn, and cost something. */
  ghost predicate Costs(turns: seq<Turn>, reply: nat -> PairReply, n: nat)
    requires n < |turns|
  {
    reply(n).called && (turns[n].answer.Owed().cost != 0 || turns[n].answer.Owed().unmetered != 0)
  }

  /** A settlement adds at most one row or booking, and of its own call. */
  ghost predicate AddsOf(t: Tables, after: Tables, call: nat) {
    && (after.rows == t.rows || (|after.rows| == |t.rows| + 1 && after.rows[..|t.rows|] == t.rows && after.rows[|t.rows|].call == call))
    && (after.unbilled == t.unbilled
        || (|after.unbilled| == |t.unbilled| + 1 && after.unbilled[..|t.unbilled|] == t.unbilled && after.unbilled[|t.unbilled|].call == call))
  }

  lemma SettlementAdds(t: Tables, caps: Caps, now: Instant, key: Key, answer: Answer, call: nat)
    ensures AddsOf(t, Settlement(t, caps, now, key, answer, call), call)
  {
    hide Judge, Settle;
    if answer.Translated? {
      var rec := AsRecord(key, answer, call);
      if !Judge(t, caps, rec).Unbookable? { EffectSettles(t, caps, now, rec); }
      SettleInWords(Moved(t, caps, now, rec), caps, now);
      hide Effect;
      assert Kept(Judge(t, caps, rec)) ==> !Judge(t, caps, rec).Unbookable?;
    } else {
      SettleInWords(BookUnbilled(t, now, answer.Owed(), call), caps, now);
    }
  }

  lemma OtherCallsStay(t: Tables, caps: Caps, now: Instant, key: Key, answer: Answer, call: nat, other: nat)
    requires other != call
    ensures Movements(Settlement(t, caps, now, key, answer, call), other) == Movements(t, other)
  {
    SettlementAdds(t, caps, now, key, answer, call);
    hide Settlement;
  }

  /** Nothing of a call is on the ledger before its turn. */
  lemma {:induction false} NotYetBooked(caps: Caps, turns: seq<Turn>, reply: nat -> PairReply, k: nat, m: nat)
    requires TurnsOf(caps, turns, reply) && m <= k < |turns|
    ensures Movements(turns[m].before, turns[k].call) == 0
  {
    hide Movements, Settlement, Without;
    if m > 0 {
      NotYetBooked(caps, turns, reply, k, m - 1);
      TurnStays(caps, turns, reply, k, m - 1);
      assert Between(turns, m - 1, k);
      WithoutMovesNothing(turns[m - 1].after, turns[m].before, turns[k].call);
    }
  }

  lemma TurnStays(caps: Caps, turns: seq<Turn>, reply: nat -> PairReply, k: nat, m: nat)
    requires TurnsOf(caps, turns, reply) && m < |turns| && k < |turns| && m != k
    ensures Movements(turns[m].after, turns[k].call) == Movements(turns[m].before, turns[k].call)
  {
    var Turn(before, _, now, key, call, answer) := turns[m];
    OtherCallsStay(before, caps, now, key, answer, call, turns[k].call);
    hide Movements, Settlement;
  }

  lemma NotOther(outcome: Outcome)
    requires outcome != Failing(OtherFailure)
    ensures outcome in {Done, Failing(ItemFailure), Failing(ProviderFailure)}
  {
    match outcome
    case Done =>
    case Failing(ItemFailure) =>
    case Failing(ProviderFailure) =>
    case Failing(OtherFailure) =>
  }

  /** Conservation over a cycle. RunOnce goes on to another pair only after a reply that
      lets it, and ends without an error only after replies that are no errors of its
      own; so by any later pair, and at such an end, every call made before that cost
      anything is on the ledger, exactly once. */
  lemma {:induction false} CycleBooks(caps: Caps, turns: seq<Turn>, reply: nat -> PairReply, k: nat, m: nat)
    requires TurnsOf(caps, turns, reply) && k <= m < |turns| && Costs(turns, reply, k)
    requires reply(k).outcome != Failing(OtherFailure)
    ensures k < m ==> Movements(turns[m].before, turns[k].call) == 1
    ensures Movements(turns[m].after, turns[k].call) == 1
  {
    hide Movements, Settlement, Without;
    if m == k {
      NotYetBooked(caps, turns, reply, k, k);
      assert reply(k).outcome in {Done, Failing(ItemFailure), Failing(ProviderFailure)} by { NotOther(reply(k).outcome); }
    } else {
      CycleBooks(caps, turns, reply, k, m - 1);
      assert Between(turns, m - 1, k);
      WithoutMovesNothing(turns[m - 1].after, turns[m].before, turns[k].call);
      TurnStays(caps, turns, reply, k, m);
    }
  }

  /** The same of what RunOnce says of its replies: every call but the last pair's is
      booked by then, and that one too unless the cycle ended broken. */
  lemma CycleLeavesNothingUnbooked(caps: Caps, turns: seq<Turn>, reply: nat -> PairReply, end: End)
    requires TurnsOf(caps, turns, reply)
    requires forall n: nat :: n < |turns| - 1 ==> reply(n).GoesOn()
    requires end != Broken ==> forall n: nat :: n < |turns| ==> reply(n).outcome != Failing(OtherFailure)
    ensures forall k: nat, m: nat :: k < m < |turns| && Costs(turns, reply, k) ==> Movements(turns[m].before, turns[k].call) == 1
    ensures forall k: nat :: k < |turns| && Costs(turns, reply, k) && (k < |turns| - 1 || end != Broken) ==>
      Movements(turns[|turns| - 1].after, turns[k].call) == 1
  {
    hide Movements, TurnsOf;
    forall k: nat, m: nat | k < m < |turns| && Costs(turns, reply, k) ensures Movements(turns[m].before, turns[k].call) == 1 {
      CycleBooks(caps, turns, reply, k, m);
    }
    forall k: nat | k < |turns| && Costs(turns, reply, k) && (k < |turns| - 1 || end != Broken)
      ensures Movements(turns[|turns| - 1].after, turns[k].call) == 1
    {
      CycleBooks(caps, turns, reply, k, |turns| - 1);
    }
  }

  // ---- the cycle ----

  /** Where a locale first stands. */
  function FirstAt(readers: seq<string>, locale: string): (at: nat)
    ensures at <= |readers| && (at < |readers| <==> locale in readers)
    ensures at < |readers| ==> readers[at] == locale
  {
    if |readers| == 0 then 0
    else
      var earlier := FirstAt(readers[..|readers| - 1], locale);
      assert forall x :: x in readers <==> x in readers[..|readers| - 1] || x == readers[|readers| - 1];
      if earlier < |readers| - 1 || readers[|readers| - 1] == locale then earlier else |readers|
  }

  function TargetLocalesOf(source: string, readers: seq<string>): (targets: seq<string>)
    ensures forall locale :: locale in targets <==> locale in readers && locale != source
    ensures forall i, j :: 0 <= i < j < |targets| ==> targets[i] != targets[j]
    ensures forall i, j :: 0 <= i < j < |targets| ==> FirstAt(readers, targets[i]) < FirstAt(readers, targets[j])
  {
    if |readers| == 0 then []
    else
      var earlier := TargetLocalesOf(source, readers[..|readers| - 1]);
      var last := readers[|readers| - 1];
      if last == source || last in earlier then earlier else earlier + [last]
  }

  /** locales.go: every reader locale but the item's own, once each, in their order. */
  method TargetLocales(source: string, readers: seq<string>) returns (targets: seq<string>)
    ensures targets == TargetLocalesOf(source, readers)
    ensures forall i, j :: 0 <= i < j < |targets| ==> FirstAt(readers, targets[i]) < FirstAt(readers, targets[j])
  {
    targets := [];
    for i := 0 to |readers|
      invariant targets == TargetLocalesOf(source, readers[..i])
    {
      assert readers[..i + 1][..i] == readers[..i];
      if readers[i] != source && readers[i] !in targets {
        targets := targets + [readers[i]];
      }
    }
    assert readers[..|readers|] == readers;
  }

  datatype WorkItem = WorkItem(id: nat, retrievedAt: nat, language: string, extract: string)

  predicate Newer(a: WorkItem, b: WorkItem) {
    a.retrievedAt > b.retrievedAt || (a.retrievedAt == b.retrievedAt && a.id > b.id)
  }

  predicate NewestFirst(items: seq<WorkItem>) {
    forall i, j :: 0 <= i < j < |items| ==> Newer(items[i], items[j])
  }

  predicate Past(after: Option<WorkItem>, item: WorkItem) { after.Some? ==> Newer(after.value, item) }

  /** The rows of a query that lie strictly after the cursor. */
  function Remaining(items: seq<WorkItem>, after: Option<WorkItem>): (rest: seq<WorkItem>)
    ensures forall item :: item in rest <==> item in items && Past(after, item)
  {
    if |items| == 0 then []
    else
      var earlier := Remaining(items[..|items| - 1], after);
      if Past(after, items[|items| - 1]) then earlier + [items[|items| - 1]] else earlier
  }

  lemma {:induction false} RemainingNewestFirst(items: seq<WorkItem>, after: Option<WorkItem>)
    requires NewestFirst(items)
    ensures NewestFirst(Remaining(items, after))
  {
    if |items| > 0 {
      var earlier, last := Remaining(items[..|items| - 1], after), items[|items| - 1];
      RemainingNewestFirst(items[..|items| - 1], after);
      forall i | 0 <= i < |earlier| ensures Newer(earlier[i], last) {
        assert earlier[i] in items[..|items| - 1];
      }
    }
  }

  /** eligibleItems: one keyset page. */
  function PageAfter(items: seq<WorkItem>, after: Option<WorkItem>, limit: nat): seq<WorkItem> {
    var rest := Remaining(items, after);
    if |rest| <= limit then rest else rest[..limit]
  }

  datatype Attempted = Attempted(item: WorkItem, locale: string)
  datatype End = BudgetDone | Exhausted | LimitReached | ProviderDown | Broken

  /** What one cycle did: pairs attempted in order, calls made, pages read. */
  datatype Cycle = Cycle(attempts: seq<Attempted>, calls: nat, pages: nat, end: End)

  function CallsIn(reply: nat -> PairReply, n: nat): nat {
    if n == 0 then 0 else CallsIn(reply, n - 1) + (if reply(n - 1).called then 1 else 0)
  }

  /** White space, as TrimSpace has it. */
  predicate IsSpace(c: char) {
    '\t' <= c <= '\r' || c == ' ' || c == '\U{0085}' || c == '\U{00A0}' || c == '\U{1680}' || '\U{2000}' <= c <= '\U{200A}'
    || c == '\U{2028}' || c == '\U{2029}' || c == '\U{202F}' || c == '\U{205F}' || c == '\U{3000}'
  }

  /** In ASCII those are tab, line feed, vertical tab, form feed, carriage return and space;
      and no letter of a script the site writes in - Latin, Greek, Cyrillic - is one. */
  lemma AsciiSpaces(c: char)
    ensures c as int < 128 ==> (IsSpace(c) <==> c as int in {9, 10, 11, 12, 13, 32})
    ensures 'a' <= c <= 'z' || 'A' <= c <= 'Z' || '\U{00C0}' <= c <= '\U{052F}' ==> !IsSpace(c)
  {
  }

  /** Nothing is left of the extract once it is trimmed. */
  predicate Blank(extract: string) { forall c <- extract :: IsSpace(c) }

  /** An item has had its turn: if there is anything to translate, every reader's locale
      but its own has been attempted. */
  predicate Handled(attempts: seq<Attempted>, readers: seq<string>, item: WorkItem) {
    (exists c <- item.extract :: !IsSpace(c)) ==>
      forall locale <- readers | locale != item.language :: Attempted(item, locale) in attempts
  }

  /** Every item that all the queries so far returned is handled or still ahead. */
  ghost predicate NoneSkipped(backlog: nat -> Option<seq<WorkItem>>, pages: nat, attempts: seq<Attempted>,
                              readers: seq<string>, after: Option<WorkItem>) {
    forall item :: Throughout(backlog, pages, item) ==> Handled(attempts, readers, item) || Past(after, item)
  }

  ghost predicate Throughout(backlog: nat -> Option<seq<WorkItem>>, pages: nat, item: WorkItem) {
    forall k: nat | k < pages :: backlog(k).Some? && item in backlog(k).value
  }

  ghost predicate Distinct(attempts: seq<Attempted>) {
    forall i, j :: 0 <= i < j < |attempts| ==> attempts[i] != attempts[j]
  }

  /** Everything attempted so far is at the bound or before it. */
  ghost predicate NotPast(attempts: seq<Attempted>, after: Option<WorkItem>) {
    forall attempt <- attempts :: !Past(after, attempt.item)
  }

  /** Why a cycle ended as it did. */
  ghost predicate EndsFor(caps: Caps, preflight: Option<MonthRow>, backlog: nat -> Option<seq<WorkItem>>, reply: nat -> PairReply,
                          cancelled: nat -> bool, cycle: Cycle) {
    var n := |cycle.attempts|;
    match cycle.end
    case Broken =>
      || preflight.None? || (cycle.pages > 0 && backlog(cycle.pages - 1).None?) || cancelled(n)
      || (n > 0 && reply(n - 1).outcome == Failing(OtherFailure))
    case ProviderDown => n > 0 && reply(n - 1).outcome == Failing(ProviderFailure)
    case BudgetDone =>
      || (preflight.Some? && n == 0 && (preflight.value.haltedAt.Some? || caps.monthly <= preflight.value.spend.cost))
      || (n > 0 && reply(n - 1).stop)
    case LimitReached => n > 0 && reply(n - 1).called
    case Exhausted => cycle.pages > 0
  }

  /** No query fails, nothing is cancelled, and every pair lets the cycle go on. */
  ghost predicate Untroubled(backlog: nat -> Option<seq<WorkItem>>, reply: nat -> PairReply, cancelled: nat -> bool) {
    && (forall k: nat :: backlog(k).Some?) && (forall n: nat :: !cancelled(n))
    && (forall n: nat :: !reply(n).stop && (reply(n).outcome.Done? || reply(n).outcome == Failing(ItemFailure)))
  }

  /** RunOnce over any world: `backlog(k)` is what the k-th query could see, newest
      first, None when it fails; `reply(n)` is what becomes of the n-th pair, and
      `cancelled(n)` whether the context has ended by then. The backlog may change
      arbitrarily between queries. */
  method RunOnce(caps: Caps, limit: nat, readers: seq<string>, preflight: Option<MonthRow>,
                 backlog: nat -> Option<seq<WorkItem>>, reply: nat -> PairReply, cancelled: nat -> bool)
    returns (cycle: Cycle)
    requires limit > 0
    requires forall k: nat :: backlog(k).Some? ==> NewestFirst(backlog(k).value)
    ensures preflight.Some? && BudgetStop(caps, preflight.value) ==> cycle == Cycle([], 0, 0, BudgetDone)
    ensures cycle.calls == CallsIn(reply, |cycle.attempts|) && cycle.calls <= limit
    ensures Distinct(cycle.attempts)
    ensures forall n: nat :: n < |cycle.attempts| - 1 ==> reply(n).GoesOn() && !reply(n).stop
    ensures cycle.end == LimitReached ==> cycle.calls == limit
    ensures cycle.end == Exhausted ==> forall n: nat :: n < |cycle.attempts| ==> reply(n).GoesOn()
    ensures cycle.end != Broken ==> forall n: nat :: n < |cycle.attempts| ==> reply(n).outcome != Failing(OtherFailure)
    // and it ends so only for a reason, in the words of what it met
    ensures EndsFor(caps, preflight, backlog, reply, cancelled, cycle)
    ensures preflight.Some? && !preflight.value.Halted() && preflight.value.spend.cost < caps.monthly && Untroubled(backlog, reply, cancelled)
      ==> cycle.end in {Exhausted, LimitReached}
    // newest first, whatever the queries returned
    ensures forall i, j :: 0 <= i < j < |cycle.attempts| ==> cycle.attempts[i].item.retrievedAt >= cycle.attempts[j].item.retrievedAt
    ensures cycle.end == Exhausted ==> forall item :: Throughout(backlog, cycle.pages, item) ==> Handled(cycle.attempts, readers, item)
  {
    NothingSkippedYet(backlog, readers, limit, reply);
    hide Handled, Throughout, NoneSkipped, NotPast, Remaining, InOrder, IsSpace;
    if preflight.None? { return Cycle([], 0, 0, Broken); }
    if BudgetStop(caps, preflight.value) { return Cycle([], 0, 0, BudgetDone); }
    var attempts: seq<Attempted>, calls, pages, after, end := [], 0, 0, None, None;
    while end.None?
      invariant Tallied(attempts, calls, limit, reply, end)
      invariant end.None? ==> (after.None? ==> attempts == []) && NotPast(attempts, after) && NoneSkipped(backlog, pages, attempts, readers, after)
      invariant InOrder(attempts) && (end.Some? ==> pages > 0)
      invariant end.Some? ==> Stopped(attempts, reply, cancelled, end) || (end == Some(Broken) && backlog(pages - 1).None?)
      invariant end == Some(Exhausted) ==> forall item :: Throughout(backlog, pages, item) ==> Handled(attempts, readers, item)
      decreases end.None?, after.None?, if after.Some? then after.value.retrievedAt else 0, if after.Some? then after.value.id else 0
    {
      pages := pages + 1;
      if backlog(pages - 1).None? {
        end := Some(Broken);
      } else {
        var items := PageAfter(backlog(pages - 1).value, after, limit);
        RemainingNewestFirst(backlog(pages - 1).value, after);
        ghost var before := attempts;
        attempts, calls, end := WalkPage(items, after, attempts, calls, limit, readers, reply, cancelled);
        if end.None? {
          PageCovers(backlog, pages - 1, before, attempts, readers, after, limit);
          if |items| < limit {
            end := Some(Exhausted);
          } else {
            CursorMoves(items, after, attempts);
            after := Some(items[|items| - 1]);
          }
        }
      }
    }
    InOrderOfTime(attempts);
    return Cycle(attempts, calls, pages, end.value);
  }

  lemma InOrderOfTime(attempts: seq<Attempted>)
    requires InOrder(attempts)
    ensures forall i, j :: 0 <= i < j < |attempts| ==> attempts[i].item.retrievedAt >= attempts[j].item.retrievedAt
  {
  }

  lemma NothingSkippedYet(backlog: nat -> Option<seq<WorkItem>>, readers: seq<string>, limit: nat, reply: nat -> PairReply)
    ensures NoneSkipped(backlog, 0, [], readers, None) && NotPast([], None) && InOrder([])
  {
  }

  /** The running account: every reply so far went on, and while the cycle runs the
      calls are below the limit. */
  ghost predicate Tallied(attempts: seq<Attempted>, calls: nat, limit: nat, reply: nat -> PairReply, end: Option<End>) {
    && calls == CallsIn(reply, |attempts|) && calls <= limit
    && Distinct(attempts)
    && (forall n: nat :: n < |attempts| - 1 ==> reply(n).GoesOn())
    && (end in {None, Some(Exhausted)} ==> calls < limit && forall n: nat :: n < |attempts| ==> reply(n).GoesOn())
    && (end == Some(LimitReached) ==> calls == limit)
    && (end != Some(Broken) ==> forall n: nat :: n < |attempts| ==> reply(n).outcome != Failing(OtherFailure))
  }

  /** What ended the cycle, in the words of the pair it ended at. */
  ghost predicate Stopped(attempts: seq<Attempted>, reply: nat -> PairReply, cancelled: nat -> bool, end: Option<End>) {
    var n := |attempts|;
    match end
    case Some(Broken) => cancelled(n) || (n > 0 && reply(n - 1).outcome == Failing(OtherFailure))
    case Some(ProviderDown) => n > 0 && reply(n - 1).outcome == Failing(ProviderFailure)
    case Some(BudgetDone) => n > 0 && reply(n - 1).stop
    case Some(LimitReached) => n > 0 && reply(n - 1).called
    case _ => true
  }

  /** Pairs of one item stand together, and those of a newer one before. */
  ghost predicate InOrder(attempts: seq<Attempted>) {
    forall i, j :: 0 <= i < j < |attempts| ==> attempts[i].item == attempts[j].item || Newer(attempts[i].item, attempts[j].item)
  }

  lemma OrderNext(before: seq<Attempted>, attempts: seq<Attempted>, item: WorkItem)
    requires InOrder(before) && before <= attempts && forall attempt <- attempts[|before|..] :: attempt.item == item
    requires forall attempt <- before :: Newer(attempt.item, item)
    ensures InOrder(attempts)
  {
    hide Newer;
    forall i, j | 0 <= i < j < |attempts| ensures attempts[i].item == attempts[j].item || Newer(attempts[i].item, attempts[j].item) {
      if i < |before| { assert attempts[i] == before[i] && before[i] in before; } else { assert attempts[i] in attempts[|before|..]; }
      if j < |before| { assert attempts[j] == before[j]; } else { assert attempts[j] in attempts[|before|..]; }
    }
  }

  /** What has been attempted is newer than anything past the cursor. */
  lemma NewerThanAhead(attempts: seq<Attempted>, after: Option<WorkItem>, items: seq<WorkItem>)
    requires NotPast(attempts, after) && forall item <- items :: Past(after, item)
    ensures forall attempt <- attempts, k :: 0 <= k < |items| ==> Newer(attempt.item, items[k])
  {
    assert forall k :: 0 <= k < |items| ==> items[k] in items;
  }

  lemma CursorMoves(items: seq<WorkItem>, after: Option<WorkItem>, attempts: seq<Attempted>)
    requires NewestFirst(items) && |items| > 0 && forall item <- items :: Past(after, item)
    requires forall attempt <- attempts :: !Past(after, attempt.item) || attempt.item in items
    ensures NotPast(attempts, Some(items[|items| - 1])) && Past(after, items[|items| - 1])
  {
  }

  /** A page either ends the backlog or moves the cursor past exactly what was handled. */
  lemma PageCovers(backlog: nat -> Option<seq<WorkItem>>, pages: nat, before: seq<Attempted>, attempts: seq<Attempted>,
                   readers: seq<string>, after: Option<WorkItem>, limit: nat)
    requires limit > 0 && backlog(pages).Some? && NewestFirst(backlog(pages).value)
    requires NoneSkipped(backlog, pages, before, readers, after) && before <= attempts
    requires forall item <- PageAfter(backlog(pages).value, after, limit) :: Handled(attempts, readers, item)
    ensures var items := PageAfter(backlog(pages).value, after, limit);
      if |items| < limit
      then forall item :: Throughout(backlog, pages + 1, item) ==> Handled(attempts, readers, item)
      else NoneSkipped(backlog, pages + 1, attempts, readers, Some(items[|items| - 1]))
  {
    var seen := backlog(pages).value;
    var rest, items := Remaining(seen, after), PageAfter(seen, after, limit);
    RemainingNewestFirst(seen, after);
    forall item | Throughout(backlog, pages + 1, item)
      ensures Handled(attempts, readers, item) || (|items| >= limit && Newer(items[|items| - 1], item))
    {
      assert Throughout(backlog, pages, item);
      assert item in seen;
      if Handled(before, readers, item) {
        HandledStays(before, attempts, readers);
      } else {
        assert item in rest;
        var k :| 0 <= k < |rest| && rest[k] == item;
        if k < |items| { assert item in items; }
      }
    }
  }

  lemma ItemHandled(attempts: seq<Attempted>, readers: seq<string>, item: WorkItem)
    requires Blank(item.extract) || forall locale <- TargetLocalesOf(item.language, readers) :: Attempted(item, locale) in attempts
    ensures Handled(attempts, readers, item)
  {
  }

  lemma HandledStays(before: seq<Attempted>, attempts: seq<Attempted>, readers: seq<string>)
    requires before <= attempts
    ensures forall item :: Handled(before, readers, item) ==> Handled(attempts, readers, item)
  {
  }

  /** One page of RunOnce: every item, every target, until something ends the cycle. */
  method WalkPage(items: seq<WorkItem>, ghost after: Option<WorkItem>, before: seq<Attempted>, callsBefore: nat, limit: nat,
                  readers: seq<string>, reply: nat -> PairReply, cancelled: nat -> bool)
    returns (attempts: seq<Attempted>, calls: nat, end: Option<End>)
    requires NewestFirst(items) && forall item <- items :: Past(after, item)
    requires Tallied(before, callsBefore, limit, reply, None) && NotPast(before, after) && InOrder(before)
    ensures InOrder(attempts) && Stopped(attempts, reply, cancelled, end)
    ensures before <= attempts && Tallied(attempts, calls, limit, reply, end) && end != Some(Exhausted)
    ensures end.None? ==> forall item <- items :: Handled(attempts, readers, item)
    ensures end.None? ==> forall attempt <- attempts :: !Past(after, attempt.item) || attempt.item in items
  {
    assert forall i, j :: 0 <= i < j < |items| ==> items[i] != items[j] && Newer(items[i], items[j]);
    NewerThanAhead(before, after, items);
    hide Handled, NewestFirst, Past, Tallied, Newer, InOrder, NotPast, Stopped, Blank, IsSpace, InTurn;
    NotStopped(before, reply, cancelled);
    attempts, calls, end := before, callsBefore, None;
    var i := 0;
    while i < |items| && end.None?
      invariant i <= |items| && before <= attempts && Tallied(attempts, calls, limit, reply, end) && end != Some(Exhausted)
      invariant end.None? ==> forall attempt <- attempts :: !Past(after, attempt.item) || attempt.item in items[..i]
      invariant end.None? ==> forall item <- items[..i] :: Handled(attempts, readers, item)
      invariant InOrder(attempts) && Stopped(attempts, reply, cancelled, end)
      invariant end.None? ==> forall attempt <- attempts, k :: i <= k < |items| ==> Newer(attempt.item, items[k])
    {
      var item := items[i];
      ghost var start := attempts;
      assert items[..i + 1] == items[..i] + [item];
      if !Blank(item.extract) {
        attempts, calls, end := WalkItem(item, attempts, calls, limit, readers, reply, cancelled);
        assert attempts == start + attempts[|start|..];
        OrderNext(start, attempts, item);
      } else {
        ItemHandled(attempts, readers, item);
      }
      HandledStays(start, attempts, readers);
      i := i + 1;
    }
    assert items[..|items|] == items;
  }

  /** The first of an item's targets, in the readers' order and one after another. */
  predicate InTurn(item: WorkItem, readers: seq<string>, attempts: seq<Attempted>) {
    var targets := TargetLocalesOf(item.language, readers);
    |attempts| <= |targets| && forall n :: 0 <= n < |attempts| ==> attempts[n] == Attempted(item, targets[n])
  }

  /** One item of RunOnce: its targets in turn. */
  method WalkItem(item: WorkItem, before: seq<Attempted>, callsBefore: nat, limit: nat,
                  readers: seq<string>, reply: nat -> PairReply, cancelled: nat -> bool)
    returns (attempts: seq<Attempted>, calls: nat, end: Option<End>)
    requires Tallied(before, callsBefore, limit, reply, None) && forall attempt <- before :: attempt.item != item
    ensures before <= attempts && Tallied(attempts, calls, limit, reply, end) && end != Some(Exhausted)
    ensures forall attempt <- attempts[|before|..] :: attempt.item == item
    ensures Stopped(attempts, reply, cancelled, end)
    ensures InTurn(item, readers, attempts[|before|..])
    ensures end.None? ==> Handled(attempts, readers, item)
  {
    attempts, calls, end := before, callsBefore, None;
    var locales := TargetLocales(item.language, readers);
    hide Tallied, FirstAt, Stopped;
    NotStopped(before, reply, cancelled);
    var j := 0;
    while j < |locales| && end.None?
      invariant j <= |locales| && before <= attempts && Tallied(attempts, calls, limit, reply, end) && end != Some(Exhausted)
      invariant |attempts| == |before| + j && Stopped(attempts, reply, cancelled, end)
      invariant forall n :: |before| <= n < |attempts| ==> attempts[n] == Attempted(item, locales[n - |before|])
      decreases |locales| - j, end.None?
    {
      if cancelled(|attempts|) {
        BrokenStays(attempts, calls, limit, reply, cancelled);
        end := Some(Broken);
      } else {
        var answer := reply(|attempts|);
        forall n | 0 <= n < |attempts| ensures attempts[n] != Attempted(item, locales[j]) {
          if n < |before| {
            assert attempts[n] == before[n] && before[n] in before;
          }
        }
        TallyNext(attempts, calls, limit, reply, cancelled, Attempted(item, locales[j]));
        attempts := attempts + [Attempted(item, locales[j])];
        j := j + 1;
        if answer.called { calls := calls + 1; }
        end := EndAfter(answer, calls, limit);
      }
    }
    forall attempt <- attempts[|before|..] ensures attempt.item == item {
      var n :| |before| <= n < |attempts| && attempts[n] == attempt;
    }
    if end.None? {
      forall locale <- TargetLocalesOf(item.language, readers) ensures Attempted(item, locale) in attempts {
        var k :| 0 <= k < |locales| && locales[k] == locale;
        assert attempts[|before| + k] == Attempted(item, locale);
      }
      ItemHandled(attempts, readers, item);
    }
  }

  /** What one pair's reply does to the cycle. */
  function EndAfter(answer: PairReply, calls: nat, limit: nat): (end: Option<End>)
    ensures end.None? <==> answer.GoesOn() && calls < limit
  {
    match answer.outcome
    case Failing(ProviderFailure) => Some(ProviderDown)
    case Failing(OtherFailure) => Some(Broken)
    case _ => if answer.stop then Some(BudgetDone) else if calls >= limit then Some(LimitReached) else None
  }

  lemma NotStopped(attempts: seq<Attempted>, reply: nat -> PairReply, cancelled: nat -> bool)
    ensures Stopped(attempts, reply, cancelled, None)
  {
  }

  lemma TallyNext(attempts: seq<Attempted>, calls: nat, limit: nat, reply: nat -> PairReply, cancelled: nat -> bool, pair: Attempted)
    requires Tallied(attempts, calls, limit, reply, None) && pair !in attempts
    ensures var answer := reply(|attempts|);
      var calls' := calls + (if answer.called then 1 else 0);
      && Tallied(attempts + [pair], calls', limit, reply, EndAfter(answer, calls', limit))
      && Stopped(attempts + [pair], reply, cancelled, EndAfter(answer, calls', limit))
  {
  }

  lemma BrokenStays(attempts: seq<Attempted>, calls: nat, limit: nat, reply: nat -> PairReply, cancelled: nat -> bool)
    requires Tallied(attempts, calls, limit, reply, None) && cancelled(|attempts|)
    ensures Tallied(attempts, calls, limit, reply, Some(Broken)) && Stopped(attempts, reply, cancelled, Some(Broken))
  {
  }
}

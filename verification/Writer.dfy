/** The writer: recording a paid translation, or the money it cost without one
    (internal/translation/writer.go). */
module Writer {
  import opened Options
  import opened Ledger

  /** What becomes of one statement. `Lost` takes the connection with it. */
  datatype Fate = Fine | Fails | Lost

  /** What becomes of a commit. `Unheard` lands and loses its acknowledgement. */
  datatype CommitFate = Landed | Refused | Unheard

  /** One connection. `tables` is what it reads; `saved` holds the state to go back
      to for each open transaction, savepoints included, outermost first. */
  class Session {
    var tables: Tables
    var saved: seq<Tables>
    var alive: bool

    constructor (t: Tables)
      ensures tables == t && saved == [] && alive
    {
      tables, saved, alive := t, [], true;
    }

    /** One statement's luck. */
    method Run(fate: Fate) returns (ok: bool)
      modifies this`alive
      ensures ok == (old(alive) && fate.Fine?)
      ensures alive == (old(alive) && !fate.Lost?)
    {
      ok := alive && fate.Fine?;
      alive := alive && !fate.Lost?;
    }

    method Begin(fate: Fate) returns (ok: bool)
      modifies this
      ensures ok == (old(alive) && fate.Fine?)
      ensures alive == (old(alive) && !fate.Lost?)
      ensures tables == old(tables)
      ensures saved == if ok then old(saved) + [old(tables)] else old(saved)
    {
      ok := Run(fate);
      if ok { saved := saved + [tables]; }
    }

    /** A savepoint released over a connection that dies never reaches the outer
        commit; only the outermost commit can land unheard. */
    method Commit(fate: CommitFate) returns (ok: bool)
      requires saved != []
      modifies this
      ensures ok == (old(alive) && fate.Landed?)
      ensures alive == (old(alive) && !fate.Unheard?)
      ensures tables == old(tables)
      ensures saved == if ok || (old(alive) && fate.Unheard? && |old(saved)| == 1)
                       then old(saved)[..|old(saved)| - 1] else old(saved)
    {
      ok := alive && fate.Landed?;
      if ok || (alive && fate.Unheard? && |saved| == 1) {
        saved := saved[..|saved| - 1];
      }
      alive := alive && !fate.Unheard?;
    }

    /** The deferred rollback: back to the state `depth` transactions were open in,
        and nothing at all once that transaction has committed. */
    method Rollback(depth: nat)
      modifies this
      ensures alive == old(alive)
      ensures if depth < |old(saved)|
              then tables == old(saved)[depth] && saved == old(saved)[..depth]
              else tables == old(tables) && saved == old(saved)
    {
      if depth < |saved| {
        tables, saved := saved[depth], saved[..depth];
      }
    }
  }

  /** A finished translation to persist. `accepted` is the schema's verdict on the
      row itself: its foreign keys and checks. `call` is history. */
  datatype Record = Record(key: Key, result: Translation, accepted: bool, call: nat) {
    /** The cost columns are checked not to be negative (migrations 0002 and 0005). */
    predicate Honest() { accepted ==> result.spend.Bookable() }
  }

  datatype Verdict =
    | Stored             // the row lands, and the trigger books it
    | OwnRow             // our earlier write is already on record
    | OverCeiling        // too dear to keep
    | AlreadyTranslated  // somebody else's row holds the pair
    | SchemaRefusal      // the schema will never take this row
    | Unbookable         // refused, with an amount nobody can be charged
  {
    predicate Settles() { !Unbookable? }
  }

  function Refusal(why: Verdict, spend: Spend): Verdict {
    if spend.Bookable() then why else Unbookable
  }

  /** What the tables make of a record. */
  function Judge(t: Tables, caps: Caps, rec: Record): Verdict {
    var spend := rec.result.spend;
    if caps.OverCeiling(spend.cost) then Refusal(OverCeiling, spend)
    else if !rec.accepted then Refusal(SchemaRefusal, spend)
    else match Find(t.rows, rec.key)
      case None => Stored
      case Some(row) => if row.result == rec.result then OwnRow else Refusal(AlreadyTranslated, spend)
  }

  /** The tables a Record call leaves once it has landed. */
  function Effect(t: Tables, caps: Caps, now: Instant, rec: Record): Tables {
    match Judge(t, caps, rec)
    case Stored => Settle(Insert(t, now, rec.key, rec.result, rec.call), caps, now)
    case OwnRow => Settle(t, caps, now)
    case Unbookable => t
    case _ => Settle(BookUnbilled(t, now, rec.result.spend, rec.call), caps, now)
  }

  datatype Reply =
    | Settled(verdict: Verdict, monthToDate: int, haltedAt: Option<Instant>)
    | Retryable   // nothing is known to be booked: call again with the same result
    | Failed      // an error the writer does not mark retryable

  /** What a reply means for the ledger: a settled one names the verdict and the
      tables hold its effect; any other leaves the tables alone, unless a standalone
      commit landed and only its acknowledgement was lost. */
  ghost predicate Means(before: Tables, after: Tables, caps: Caps, now: Instant, rec: Record, reply: Reply, standalone: bool) {
    match reply
    case Settled(verdict, monthToDate, haltedAt) =>
      && verdict == Judge(before, caps, rec) && verdict.Settles()
      && after == Effect(before, caps, now, rec)
      && monthToDate == ThisMonth(after, now.month).spend.cost
      && haltedAt == ThisMonth(after, now.month).haltedAt
    case _ => after == before || (standalone && Judge(before, caps, rec).Settles() && after == Effect(before, caps, now, rec))
  }

  /** The luck one Record call meets, statement by statement. */
  datatype Plan = Plan(begin: Fate, savepoint: Fate, insert: Fate, back: Fate, release: Fate, probe: Fate,
                       book: Fate, read: Fate, latch: Fate, commit: CommitFate) {
    predicate AllFine() {
      && begin.Fine? && savepoint.Fine? && insert.Fine? && back.Fine? && release.Fine? && probe.Fine?
      && book.Fine? && read.Fine? && latch.Fine? && commit.Landed?
    }
    /** Whatever fails, the connection survives it. */
    predicate NeverLost() {
      && !begin.Lost? && !savepoint.Lost? && !insert.Lost? && !back.Lost? && !release.Lost? && !probe.Lost?
      && !book.Lost? && !read.Lost? && !latch.Lost? && !commit.Unheard?
    }
    /** The settlement of a month in this state goes through. */
    predicate Settles(caps: Caps, month: MonthRow) {
      read.Fine? && (!month.Halted() && caps.Reached(month.spend.cost) ==> latch.Fine?)
    }
    /** Every statement before the settlement goes through. */
    predicate Reaches(t: Tables, caps: Caps, rec: Record) {
      if caps.OverCeiling(rec.result.spend.cost) then begin.Fine? && book.Fine? && rec.result.spend.Bookable()
      else
        && begin.Fine? && savepoint.Fine? && insert.Fine?
        && match Judge(t, caps, rec)
           case Stored => release.Fine?
           case OwnRow => back.Fine? && probe.Fine?
           case SchemaRefusal => back.Fine? && book.Fine?
           case AlreadyTranslated => back.Fine? && probe.Fine? && book.Fine?
           case _ => false
    }
    /** A Record call on a live connection goes through, commit and all. */
    predicate Completes(t: Tables, caps: Caps, now: Instant, rec: Record) {
      Reaches(t, caps, rec) && Settles(caps, ThisMonth(Moved(t, caps, now, rec), now.month)) && commit.Landed?
    }
    /** It stops in the settlement of the month. */
    predicate StopsSettling(t: Tables, caps: Caps, now: Instant, rec: Record) {
      Reaches(t, caps, rec) && !Settles(caps, ThisMonth(Moved(t, caps, now, rec), now.month))
    }
    /** It fails, and says so in a way its caller retries. */
    predicate AsksAgain(t: Tables, caps: Caps, now: Instant, rec: Record) {
      && !caps.OverCeiling(rec.result.spend.cost)
      && !Completes(t, caps, now, rec) && !StopsSettling(t, caps, now, rec)
    }
  }

  /** The tables once the spend has moved and before the month is settled. */
  function Moved(t: Tables, caps: Caps, now: Instant, rec: Record): Tables {
    match Judge(t, caps, rec)
    case Stored => Insert(t, now, rec.key, rec.result, rec.call)
    case OwnRow => t
    case Unbookable => t
    case _ => BookUnbilled(t, now, rec.result.spend, rec.call)
  }

  /** A transient failure is one of a call that would settle if nothing failed. It is
      retryable exactly when the result is under the ceiling and the failure is not one
      of the month's settlement: of that, and of every step of the refusal of a result
      over the ceiling, the caller is told in a way it does not retry. */
  lemma TransientIsRetryableIff(t: Tables, caps: Caps, now: Instant, rec: Record, plan: Plan)
    requires caps.Valid() && rec.Honest() && Judge(t, caps, rec).Settles() && !plan.Completes(t, caps, now, rec)
    ensures !plan.AllFine()
    ensures !plan.AsksAgain(t, caps, now, rec) <==>
      caps.OverCeiling(rec.result.spend.cost) || (plan.Reaches(t, caps, rec) && !plan.Settles(caps, ThisMonth(Moved(t, caps, now, rec), now.month)))
  {
  }

  lemma FineCompletes(t: Tables, caps: Caps, now: Instant, rec: Record, plan: Plan)
    requires rec.Honest() && Judge(t, caps, rec).Settles() && plan.AllFine()
    ensures plan.Completes(t, caps, now, rec)
  {
  }

  /** Both happen, and so does the promised case: one failed statement of an otherwise
      untroubled call under the ceiling, and one of a call over it. */
  lemma OneFailureEach(t: Tables, caps: Caps, now: Instant, rec: Record, plan: Plan)
    requires caps.Valid() && rec.Honest() && Judge(t, caps, rec).Settles() && plan.AllFine()
    ensures !caps.OverCeiling(rec.result.spend.cost) ==>
      && plan.(read := Fails).StopsSettling(t, caps, now, rec) && !plan.(read := Fails).AsksAgain(t, caps, now, rec)
      && plan.(insert := Fails).AsksAgain(t, caps, now, rec)
      && plan.(commit := CommitFate.Refused).AsksAgain(t, caps, now, rec)
    ensures caps.OverCeiling(rec.result.spend.cost) ==>
      && !plan.(begin := Fails).Completes(t, caps, now, rec) && !plan.(begin := Fails).AsksAgain(t, caps, now, rec)
      && !plan.(commit := CommitFate.Refused).Completes(t, caps, now, rec) && !plan.(commit := CommitFate.Refused).AsksAgain(t, caps, now, rec)
  {
  }

  /** A refused result with an amount nobody can be charged is retryable for ever: no
      call of any luck settles it, and under the ceiling every one asks for another. */
  lemma UnbookableNeverSettles(t: Tables, caps: Caps, now: Instant, rec: Record, plan: Plan)
    requires caps.Valid() && Judge(t, caps, rec) == Unbookable
    ensures !plan.Completes(t, caps, now, rec)
    ensures !caps.OverCeiling(rec.result.spend.cost) ==> plan.AsksAgain(t, caps, now, rec)
  {
  }

  /** What a settled reply means, in the caps' and the tables' own numbers. A result that
      cost more than the per-article ceiling is refused, whatever else is the matter with
      it; a result the schema accepts is stored unless the pair has a row. What is stored
      is the result, what is refused is booked with its whole spend, and what is found on
      record moves nothing; and the month is halted, and said to be, from the moment its
      total has reached the monthly cap. */
  lemma SettledInWords(before: Tables, after: Tables, caps: Caps, now: Instant, rec: Record, reply: Reply, standalone: bool)
    requires Means(before, after, caps, now, rec, reply, standalone) && reply.Settled?
    ensures reply.verdict == OverCeiling <==> caps.perArticle < rec.result.spend.cost
    ensures reply.verdict == SchemaRefusal <==> rec.result.spend.cost <= caps.perArticle && !rec.accepted
    ensures reply.verdict == Stored <==>
      rec.result.spend.cost <= caps.perArticle && rec.accepted && forall row <- before.rows :: row.key != rec.key
    ensures reply.verdict == OwnRow ==> exists row <- before.rows :: row.key == rec.key && row.result == rec.result
    ensures reply.verdict == AlreadyTranslated ==> exists row <- before.rows :: row.key == rec.key && row.result != rec.result
    ensures reply.verdict in {OverCeiling, SchemaRefusal, Stored, OwnRow, AlreadyTranslated}
    ensures after.rows == if reply.verdict == Stored then before.rows + [Row(rec.key, rec.result, now, rec.call)] else before.rows
    ensures after.unbilled == if reply.verdict in {Stored, OwnRow} then before.unbilled else before.unbilled + [Booking(now.month, rec.result.spend, rec.call)]
    ensures forall month: nat | month != now.month :: ThisMonth(after, month) == ThisMonth(before, month)
    ensures var found, left, moved := ThisMonth(before, now.month), ThisMonth(after, now.month), reply.verdict != OwnRow;
      && left.spend.cost == found.spend.cost + (if moved then rec.result.spend.cost else 0)
      && left.spend.unmetered == found.spend.unmetered + (if moved then rec.result.spend.unmetered else 0)
      && reply.monthToDate == left.spend.cost && reply.haltedAt == left.haltedAt
      && (found.haltedAt.Some? ==> left.haltedAt == found.haltedAt)
      && (found.haltedAt.None? && (moved || now.month in before.months) ==>
            left.haltedAt == if caps.monthly <= left.spend.cost then Some(now) else None)
  {
    hide Means;
    MeansSettled(before, after, caps, now, rec, reply, standalone);
    hide Settle, Effect;
    var moved := Moved(before, caps, now, rec);
    EffectSettles(before, caps, now, rec);
    SettleInWords(moved, caps, now);
  }

  lemma MeansSettled(before: Tables, after: Tables, caps: Caps, now: Instant, rec: Record, reply: Reply, standalone: bool)
    requires Means(before, after, caps, now, rec, reply, standalone) && reply.Settled?
    ensures reply.verdict == Judge(before, caps, rec) && !reply.verdict.Unbookable? && after == Effect(before, caps, now, rec)
    ensures reply.monthToDate == ThisMonth(after, now.month).spend.cost && reply.haltedAt == ThisMonth(after, now.month).haltedAt
  {
    hide Judge, Effect, ThisMonth;
  }

  lemma EffectSettles(t: Tables, caps: Caps, now: Instant, rec: Record)
    requires !Judge(t, caps, rec).Unbookable?
    ensures Effect(t, caps, now, rec) == Settle(Moved(t, caps, now, rec), caps, now)
  {
    hide Judge, Settle;
  }

  /** Settling latches the month the moment its total has reached the cap, and announces
      that with the total; a month that is halted, or below it, is left alone. */
  lemma SettleInWords(t: Tables, caps: Caps, now: Instant)
    ensures var after := Settle(t, caps, now);
      && after.rows == t.rows && after.unbilled == t.unbilled
      && (forall month: nat :: ThisMonth(after, month).spend == ThisMonth(t, month).spend)
      && (forall month: nat | month != now.month :: ThisMonth(after, month) == ThisMonth(t, month))
      && (ThisMonth(t, now.month).haltedAt.Some? ==> ThisMonth(after, now.month).haltedAt == ThisMonth(t, now.month).haltedAt)
      && (ThisMonth(t, now.month).haltedAt.None? && now.month in t.months ==>
            ThisMonth(after, now.month).haltedAt == if caps.monthly <= ThisMonth(t, now.month).spend.cost then Some(now) else None)
      && after.halts == if ThisMonth(t, now.month).haltedAt != ThisMonth(after, now.month).haltedAt
                        then t.halts + [HaltEvent(now.month, ThisMonth(t, now.month).spend, now)] else t.halts
  {
  }

  class TranslationWriter {
    const caps: Caps
    const db: Session

    constructor (db: Session, caps: Caps)
      ensures this.db == db && this.caps == caps
    {
      this.db, this.caps := db, caps;
    }

    /** Writer.settle: read the month back under its lock and latch it at the cap. */
    method SettleMonth(now: Instant, plan: Plan) returns (ok: bool, spent: int, haltedAt: Option<Instant>)
      requires caps.Valid()
      modifies db
      ensures db.saved == old(db.saved) && (ok ==> db.alive)
      ensures db.alive ==> old(db.alive)
      ensures ok ==> db.tables == Settle(old(db.tables), caps, now)
      ensures ok ==> spent == ThisMonth(db.tables, now.month).spend.cost && haltedAt == ThisMonth(db.tables, now.month).haltedAt
      ensures ok <==> old(db.alive) && plan.Settles(caps, ThisMonth(old(db.tables), now.month))
      ensures old(db.alive) && !plan.read.Lost? && !plan.latch.Lost? ==> db.alive
    {
      spent, haltedAt := 0, None;
      ok := db.Run(plan.read);
      if !ok { return; }
      var month := ThisMonth(db.tables, now.month);
      if month.Halted() || !caps.Reached(month.spend.cost) {
        return true, month.spend.cost, month.haltedAt;
      }
      ok := db.Run(plan.latch);
      if !ok { return; }
      var latched := Latches(db.tables, now.month, caps.monthly);
      db.tables := Latch(db.tables, now, now.month, caps.monthly);
      return true, month.spend.cost, if latched then Some(now) else month.haltedAt;
    }

    /** Ledger.RecordUnbilledSpend. */
    method RecordUnbilledSpend(now: Instant, spend: Spend, call: nat, fate: Fate) returns (ok: bool)
      modifies db
      ensures ok <==> 0 <= spend.cost && 0 <= spend.unmetered && old(db.alive) && fate.Fine?
      ensures db.saved == old(db.saved) && (ok ==> db.alive)
      ensures db.alive ==> old(db.alive)
      ensures old(db.alive) && !fate.Lost? ==> db.alive
      ensures db.tables == if ok then BookUnbilled(old(db.tables), now, spend, call) else old(db.tables)
    {
      if !spend.Bookable() { return false; }
      ok := db.Run(fate);
      if ok { db.tables := BookUnbilled(db.tables, now, spend, call); }
    }

    /** recordRefusedSpend: the cost of a call that produced no row, in a
        transaction of its own. Its failures are not marked retryable. */
    method RecordRefusedSpend(now: Instant, spend: Spend, call: nat, plan: Plan)
      returns (ok: bool, spent: int, haltedAt: Option<Instant>)
      requires caps.Valid()
      modifies db
      ensures db.saved == old(db.saved)
      ensures db.alive ==> old(db.alive)
      ensures ok ==> spend.Bookable() && db.alive && db.tables == Settle(BookUnbilled(old(db.tables), now, spend, call), caps, now)
      ensures ok ==> spent == ThisMonth(db.tables, now.month).spend.cost && haltedAt == ThisMonth(db.tables, now.month).haltedAt
      ensures !ok && (|db.saved| > 0 || !spend.Bookable()) ==> db.tables == old(db.tables)
      ensures !ok ==> db.tables in {old(db.tables), Settle(BookUnbilled(old(db.tables), now, spend, call), caps, now)}
      ensures ok <==>
        && old(db.alive) && plan.begin.Fine? && spend.Bookable() && plan.book.Fine?
        && plan.Settles(caps, ThisMonth(BookUnbilled(old(db.tables), now, spend, call), now.month)) && plan.commit.Landed?
      ensures old(db.alive) && plan.NeverLost() ==> db.alive
    {
      var depth := |db.saved|;
      spent, haltedAt := 0, None;
      ok := db.Begin(plan.begin);
      if ok {
        ok := RecordUnbilledSpend(now, spend, call, plan.book);
        if ok {
          ok, spent, haltedAt := SettleMonth(now, plan);
          if ok {
            ok := db.Commit(plan.commit);
          }
        }
      }
      db.Rollback(depth);
    }

    /** Writer.Record: store the translation, or book what it cost, and settle the
        month - all in one transaction. */
    method Record(now: Instant, rec: Record, plan: Plan) returns (reply: Reply)
      requires rec.Honest()
      modifies db
      ensures db.saved == old(db.saved)
      ensures db.alive ==> old(db.alive)
      ensures reply.Settled? ==> db.alive
      ensures Means(old(db.tables), db.tables, caps, now, rec, reply, |db.saved| == 0)
      ensures reply.Settled? ==> (reply.verdict == OverCeiling <==> caps.perArticle < rec.result.spend.cost)
      // a budget that cannot be enforced is refused before anything is written
      ensures caps.perArticle <= 0 || caps.monthly <= 0 || caps.monthly < caps.perArticle ==> reply.Failed? && db.tables == old(db.tables)
      ensures reply.Settled? <==> 0 < caps.perArticle <= caps.monthly && old(db.alive) && plan.Completes(old(db.tables), caps, now, rec)
      ensures reply.Failed? <==>
        !reply.Settled? && (!(0 < caps.perArticle <= caps.monthly) || caps.OverCeiling(rec.result.spend.cost) || (old(db.alive) && plan.StopsSettling(old(db.tables), caps, now, rec)))
      ensures old(db.alive) && plan.NeverLost() ==> db.alive
    {
      if !caps.Valid() { return Failed; }
      var spend := rec.result.spend;
      if caps.OverCeiling(spend.cost) {
        var ok, spent, haltedAt := RecordRefusedSpend(now, spend, rec.call, plan);
        return if ok then Settled(OverCeiling, spent, haltedAt) else Failed;
      }
      var depth := |db.saved|;
      reply := Retryable;
      var ok := db.Begin(plan.begin);
      if ok {
        reply := RecordInside(now, rec, plan);
      }
      db.Rollback(depth);
    }

    /** The body of Record between its begin and its deferred rollback. */
    method RecordInside(now: Instant, rec: Record, plan: Plan) returns (reply: Reply)
      requires caps.Valid() && rec.Honest() && !caps.OverCeiling(rec.result.spend.cost)
      requires db.saved != [] && db.saved[|db.saved| - 1] == db.tables && db.alive
      modifies db
      ensures Closes(old(db.saved), db.saved, reply)
      ensures db.alive ==> old(db.alive)
      ensures reply.Settled? ==> db.alive
      ensures |db.saved| < |old(db.saved)| ==>
        Means(old(db.tables), db.tables, caps, now, rec, reply, |old(db.saved)| == 1)
      ensures plan.begin.Fine? ==> (reply.Settled? <==> plan.Completes(old(db.tables), caps, now, rec))
      ensures plan.begin.Fine? ==> (reply.Failed? <==> plan.StopsSettling(old(db.tables), caps, now, rec))
      ensures plan.NeverLost() ==> db.alive
    {
      var inner := |db.saved|;
      var ok := db.Begin(plan.savepoint);
      if !ok { return Retryable; }
      // The insert either gets the schema's own answer or no answer worth keeping.
      ok := db.Run(plan.insert);
      var found := Find(db.tables.rows, rec.key);
      if !ok || !rec.accepted || found.Some? {
        var back := db.Run(plan.back);
        if !back { return Retryable; }
        db.Rollback(inner);
        if !ok { return Retryable; }
        reply := SettleRefusedInsert(now, rec, plan);
        return;
      }
      db.tables := Insert(db.tables, now, rec.key, rec.result, rec.call);
      ok := db.Run(plan.release);
      if !ok { return Retryable; }
      db.saved := db.saved[..inner];
      var spent, haltedAt;
      ok, spent, haltedAt := SettleMonth(now, plan);
      if !ok { return Failed; }
      ok := db.Commit(plan.commit);
      reply := if ok then Settled(Stored, spent, haltedAt) else Retryable;
    }

    /** settleRefusedInsert: our own landed write books nothing; a refusal the
        database will repeat books its cost in this same transaction. */
    method SettleRefusedInsert(now: Instant, rec: Record, plan: Plan) returns (reply: Reply)
      requires caps.Valid() && rec.Honest() && !caps.OverCeiling(rec.result.spend.cost)
      requires db.saved != [] && db.alive
      requires !rec.accepted || Has(db.tables, rec.key)
      modifies db
      ensures Closes(old(db.saved), db.saved, reply)
      ensures reply.Settled? ==> db.alive
      ensures |db.saved| < |old(db.saved)| ==>
        Means(old(db.tables), db.tables, caps, now, rec, reply, |old(db.saved)| == 1)
      ensures plan.begin.Fine? && plan.savepoint.Fine? && plan.insert.Fine? && plan.back.Fine? ==>
        && (reply.Settled? <==> plan.Completes(old(db.tables), caps, now, rec))
        && (reply.Failed? <==> plan.StopsSettling(old(db.tables), caps, now, rec))
      ensures plan.NeverLost() ==> db.alive
    {
      var verdict := SchemaRefusal;
      var ok, spent, haltedAt;
      if rec.accepted {
        ok := db.Run(plan.probe);
        if !ok { return Retryable; }
        var winner := Find(db.tables.rows, rec.key);
        if winner.Some? && winner.value.result == rec.result {
          ok, spent, haltedAt := SettleMonth(now, plan);
          if !ok { return Failed; }
          ok := db.Commit(plan.commit);
          return if ok then Settled(OwnRow, spent, haltedAt) else Retryable;
        }
        verdict := AlreadyTranslated;
      }
      ok := RecordUnbilledSpend(now, rec.result.spend, rec.call, plan.book);
      if !ok { return Retryable; }
      ok, spent, haltedAt := SettleMonth(now, plan);
      if !ok { return Failed; }
      ok := db.Commit(plan.commit);
      reply := if ok then Settled(verdict, spent, haltedAt) else Retryable;
    }
  }

  /** Whether the transaction Record opened is closed: always by a settled reply,
      otherwise left for the deferred rollback unless its commit landed unheard. */
  ghost predicate Closes(before: seq<Tables>, after: seq<Tables>, reply: Reply)
    requires before != []
  {
    if reply.Settled? then after == before[..|before| - 1]
    else after == before[..|before| - 1] || before <= after
  }
}

/** The retry contract of Writer.Record (internal/translation/writer.go, lines 112-124):
    what any number of calls with one result leaves on the ledger. */
module Retry {
  import opened Options
  import opened Ledger
  import opened Writer

  /** One Record call on a connection of its own, in its own transaction. */
  datatype Attempt = Attempt(before: Tables, after: Tables, now: Instant, reply: Reply)

  /** What other workers may do meanwhile: rows and bookings are only ever added, and
      none of them belongs to this call. */
  ghost predicate Others(before: Tables, after: Tables, rec: Record) { Without(before, after, rec.call) }

  ghost predicate Without(before: Tables, after: Tables, call: nat) {
    && before.rows <= after.rows && before.unbilled <= after.unbilled
    && (forall i :: |before.rows| <= i < |after.rows| ==> after.rows[i].call != call)
    && (forall i :: |before.unbilled| <= i < |after.unbilled| ==> after.unbilled[i].call != call)
  }

  /** ... and nobody else writes this item and locale. */
  ghost predicate NoRival(before: Tables, after: Tables, rec: Record) {
    Others(before, after, rec)
    && forall i :: |before.rows| <= i < |after.rows| ==> after.rows[i].key != rec.key
  }

  /** Any mix of settled replies, transient failures and lost acknowledgements. */
  ghost predicate Calls(caps: Caps, rec: Record, run: seq<Attempt>) {
    && caps.Valid() && rec.Honest()
    && (forall a <- run :: Means(a.before, a.after, caps, a.now, rec, a.reply, true))
    && (forall i :: 0 <= i < |run| - 1 ==> Others(run[i].after, run[i + 1].before, rec))
  }

  /** Nothing of this call has landed, or its row has and was booked with it. */
  ghost predicate NothingOrOurs(t: Tables, rec: Record) {
    match Find(t.rows, rec.key)
    case None => Movements(t, rec.call) == 0
    case Some(row) => row.result == rec.result && row.call == rec.call && Movements(t, rec.call) == 1
  }

  lemma {:induction false} FindSkips(rows: seq<Row>, more: seq<Row>, key: Key)
    requires forall row <- more :: row.key != key
    ensures Find(rows + more, key) == Find(rows, key)
  {
    if |more| == 0 {
      assert rows + more == rows;
    } else {
      assert (rows + more)[..|rows + more| - 1] == rows + more[..|more| - 1];
      FindSkips(rows, more[..|more| - 1], key);
    }
  }

  lemma {:induction false} RowsSkip(rows: seq<Row>, more: seq<Row>, call: nat)
    requires forall row <- more :: row.call != call
    ensures RowsOf(rows + more, call) == RowsOf(rows, call)
  {
    if |more| == 0 {
      assert rows + more == rows;
    } else {
      assert (rows + more)[..|rows + more| - 1] == rows + more[..|more| - 1];
      RowsSkip(rows, more[..|more| - 1], call);
    }
  }

  lemma {:induction false} BookingsSkip(bookings: seq<Booking>, more: seq<Booking>, call: nat)
    requires forall booking <- more :: booking.call != call
    ensures BookingsOf(bookings + more, call) == BookingsOf(bookings, call)
  {
    if |more| == 0 {
      assert bookings + more == bookings;
    } else {
      assert (bookings + more)[..|bookings + more| - 1] == bookings + more[..|more| - 1];
      BookingsSkip(bookings, more[..|more| - 1], call);
    }
  }

  lemma WithoutMovesNothing(before: Tables, after: Tables, call: nat)
    requires Without(before, after, call)
    ensures Movements(after, call) == Movements(before, call)
  {
    assert after.rows == before.rows + after.rows[|before.rows|..];
    assert after.unbilled == before.unbilled + after.unbilled[|before.unbilled|..];
    RowsSkip(before.rows, after.rows[|before.rows|..], call);
    BookingsSkip(before.unbilled, after.unbilled[|before.unbilled|..], call);
  }

  /** What one landed call moves: exactly one entry, except that finding its own
      result on record - or an amount nobody can be charged - moves none. */
  lemma LandingMoves(t: Tables, caps: Caps, now: Instant, rec: Record)
    requires caps.Valid() && rec.Honest()
    ensures Movements(Effect(t, caps, now, rec), rec.call)
         == Movements(t, rec.call) + (if Judge(t, caps, rec) in {OwnRow, Unbookable} then 0 else 1)
  {
    var after := Effect(t, caps, now, rec);
    match Judge(t, caps, rec) {
      case Stored => assert after.rows[..|t.rows|] == t.rows;
      case OwnRow =>
      case Unbookable =>
      case _ => assert after.unbilled[..|t.unbilled|] == t.unbilled;
    }
  }

  /** A landed call leaves the row, not a second one. */
  lemma LandingStores(t: Tables, caps: Caps, now: Instant, rec: Record)
    requires caps.Valid() && rec.Honest() && rec.accepted && !caps.OverCeiling(rec.result.spend.cost)
    requires NothingOrOurs(t, rec)
    ensures Judge(t, caps, rec) in {Stored, OwnRow}
    ensures NothingOrOurs(Effect(t, caps, now, rec), rec) && Has(Effect(t, caps, now, rec), rec.key)
    ensures OnePerKey(t.rows) ==> OnePerKey(Effect(t, caps, now, rec).rows)
  {
    LandingMoves(t, caps, now, rec);
    var after := Effect(t, caps, now, rec);
    if Judge(t, caps, rec) == Stored {
      assert after.rows == t.rows + [Row(rec.key, rec.result, now, rec.call)];
      assert after.rows[|t.rows|].key == rec.key;
    }
  }

  lemma CallsBefore(caps: Caps, rec: Record, run: seq<Attempt>)
    requires Calls(caps, rec, run) && |run| > 1
    ensures Calls(caps, rec, run[..|run| - 1])
    ensures Others(run[|run| - 2].after, run[|run| - 1].before, rec)
  {
    var earlier := run[..|run| - 1];
    forall a <- earlier ensures Means(a.before, a.after, caps, a.now, rec, a.reply, true) { assert a in run; }
    forall i | 0 <= i < |run| - 1 ensures Others(run[i].after, run[i + 1].before, rec) {}
    assert Others(run[|run| - 2].after, run[|run| - 2 + 1].before, rec);
  }

  lemma QuietKeeps(before: Tables, after: Tables, rec: Record)
    requires NoRival(before, after, rec) && NothingOrOurs(before, rec)
    ensures NothingOrOurs(after, rec)
  {
    WithoutMovesNothing(before, after, rec.call);
    assert after.rows == before.rows + after.rows[|before.rows|..];
    FindSkips(before.rows, after.rows[|before.rows|..], rec.key);
  }

  /** The insert path books exactly once. However many calls fail or land unheard on
      the way, a result the database accepts never has more than one row or more than
      one ledger movement, and once a call reports success it has exactly one of each. */
  lemma {:induction false} RetryContract(caps: Caps, rec: Record, run: seq<Attempt>)
    requires Calls(caps, rec, run) && run != []
    requires rec.accepted && !caps.OverCeiling(rec.result.spend.cost)
    requires forall i :: 0 <= i < |run| - 1 ==> NoRival(run[i].after, run[i + 1].before, rec)
    requires !Has(run[0].before, rec.key) && Movements(run[0].before, rec.call) == 0
    ensures var last := run[|run| - 1];
      && NothingOrOurs(last.after, rec)
      && (last.reply.Settled? ==>
            && last.reply.verdict in {Stored, OwnRow}
            && Has(last.after, rec.key) && Movements(last.after, rec.call) == 1)
  {
    hide Means, NothingOrOurs, NoRival, Others;
    var last := run[|run| - 1];
    if |run| == 1 {
      NothingYet(last.before, rec);
    } else {
      CallsBefore(caps, rec, run);
      var earlier := run[..|run| - 1];
      forall i | 0 <= i < |earlier| - 1 ensures NoRival(earlier[i].after, earlier[i + 1].before, rec) {
        assert NoRival(run[i].after, run[i + 1].before, rec);
      }
      RetryContract(caps, rec, earlier);
      assert NoRival(run[|run| - 2].after, run[|run| - 2 + 1].before, rec);
      QuietKeeps(run[|run| - 2].after, last.before, rec);
    }
    AttemptKeeps(caps, rec, last) by { assert last in run; }
  }

  lemma NothingYet(t: Tables, rec: Record)
    requires !Has(t, rec.key) && Movements(t, rec.call) == 0
    ensures NothingOrOurs(t, rec)
  {
  }

  lemma AttemptKeeps(caps: Caps, rec: Record, a: Attempt)
    requires caps.Valid() && rec.Honest() && rec.accepted && !caps.OverCeiling(rec.result.spend.cost)
    requires Means(a.before, a.after, caps, a.now, rec, a.reply, true) && NothingOrOurs(a.before, rec)
    ensures NothingOrOurs(a.after, rec)
    ensures a.reply.Settled? ==>
      a.reply.verdict in {Stored, OwnRow} && Has(a.after, rec.key) && Movements(a.after, rec.call) == 1
  {
    LandingStores(a.before, caps, a.now, rec);
  }

  /** A refusal decided before the tables are consulted: too dear, or a row the
      schema will not take. */
  predicate AlwaysRefused(caps: Caps, rec: Record) {
    rec.result.spend.Bookable() && (caps.OverCeiling(rec.result.spend.cost) || !rec.accepted)
  }

  function Landings(run: seq<Attempt>): nat {
    if |run| == 0 then 0
    else Landings(run[..|run| - 1]) + (if run[|run| - 1].after != run[|run| - 1].before then 1 else 0)
  }

  /** The refusal path has no row to recognise, so it books once per commit that
      landed, heard or not. */
  lemma {:induction false} RefusalsBookPerLanding(caps: Caps, rec: Record, run: seq<Attempt>)
    requires Calls(caps, rec, run) && run != [] && AlwaysRefused(caps, rec)
    ensures Movements(run[|run| - 1].after, rec.call) == Movements(run[0].before, rec.call) + Landings(run)
    ensures run[|run| - 1].reply.Settled? ==> run[|run| - 1].after != run[|run| - 1].before
  {
    var last := run[|run| - 1];
    var earlier := run[..|run| - 1];
    if |run| > 1 {
      CallsBefore(caps, rec, run);
      RefusalsBookPerLanding(caps, rec, earlier);
      WithoutMovesNothing(run[|run| - 2].after, last.before, rec.call);
    }
    assert last in run;
    LandingMoves(last.before, caps, last.now, rec);
  }

  lemma {:induction false} NoLandings(run: seq<Attempt>)
    ensures Landings(run) == 0 <==> forall a <- run :: a.after == a.before
  {
    if |run| > 0 {
      NoLandings(run[..|run| - 1]);
      assert run == run[..|run| - 1] + [run[|run| - 1]];
    }
  }

  /** So a refused result is booked exactly once if and only if no acknowledgement was
      lost before the call that reported it. */
  lemma RefusalBookedOnceIff(caps: Caps, rec: Record, run: seq<Attempt>)
    requires Calls(caps, rec, run) && run != [] && AlwaysRefused(caps, rec)
    requires run[|run| - 1].reply.Settled?
    ensures Movements(run[|run| - 1].after, rec.call) == Movements(run[0].before, rec.call) + 1
       <==> forall a <- run[..|run| - 1] :: a.after == a.before
  {
    RefusalsBookPerLanding(caps, rec, run);
    NoLandings(run[..|run| - 1]);
  }

  /** And a lost acknowledgement is enough: whatever the tables and the refused result,
      a first commit that lands unheard and a second that is heard book it twice. */
  lemma LostAcknowledgementBooksTwice(caps: Caps, rec: Record, t: Tables, now: Instant) returns (run: seq<Attempt>)
    requires caps.Valid() && rec.Honest() && AlwaysRefused(caps, rec) && Movements(t, rec.call) == 0
    ensures Calls(caps, rec, run) && |run| == 2 && run[0].before == t
    ensures !run[0].reply.Settled? && run[1].reply.Settled?
    ensures Movements(run[1].after, rec.call) == 2
  {
    hide Judge, Effect, Movements, ThisMonth, Means;
    var once := Effect(t, caps, now, rec);
    var twice := Effect(once, caps, now, rec);
    var month := ThisMonth(twice, now.month);
    var first := Attempt(t, once, now, if caps.OverCeiling(rec.result.spend.cost) then Failed else Retryable);
    var second := Attempt(once, twice, now, Settled(Judge(once, caps, rec), month.spend.cost, month.haltedAt));
    TwoLandings(caps, rec, first, second);
    run := [first, second];
  }

  lemma TwoLandings(caps: Caps, rec: Record, first: Attempt, second: Attempt)
    requires caps.Valid() && rec.Honest() && AlwaysRefused(caps, rec) && Movements(first.before, rec.call) == 0
    requires !first.reply.Settled? && first.after == Effect(first.before, caps, first.now, rec)
    requires second.before == first.after && second.after == Effect(second.before, caps, second.now, rec)
    requires second.reply.Settled? && second.reply.verdict == Judge(second.before, caps, rec)
    requires second.reply.monthToDate == ThisMonth(second.after, second.now.month).spend.cost
    requires second.reply.haltedAt == ThisMonth(second.after, second.now.month).haltedAt
    ensures Calls(caps, rec, [first, second]) && Movements(second.after, rec.call) == 2
  {
    LandingMoves(first.before, caps, first.now, rec);
    LandingMoves(second.before, caps, second.now, rec);
    RefusedWhatever(first.before, caps, rec);
    RefusedWhatever(second.before, caps, rec);
    hide *;
    LandingMeans(caps, rec, first);
    LandingMeans(caps, rec, second);
    CallsOfTwo(caps, rec, first, second);
  }

  lemma LandingMeans(caps: Caps, rec: Record, a: Attempt)
    requires Judge(a.before, caps, rec) in {OverCeiling, SchemaRefusal} && a.after == Effect(a.before, caps, a.now, rec)
    requires a.reply.Settled? ==>
      && a.reply.verdict == Judge(a.before, caps, rec)
      && a.reply.monthToDate == ThisMonth(a.after, a.now.month).spend.cost
      && a.reply.haltedAt == ThisMonth(a.after, a.now.month).haltedAt
    ensures Means(a.before, a.after, caps, a.now, rec, a.reply, true)
  {
    hide Judge, Effect, ThisMonth;
  }

  lemma CallsOfTwo(caps: Caps, rec: Record, first: Attempt, second: Attempt)
    requires caps.Valid() && rec.Honest() && second.before == first.after
    requires Means(first.before, first.after, caps, first.now, rec, first.reply, true)
    requires Means(second.before, second.after, caps, second.now, rec, second.reply, true)
    ensures Calls(caps, rec, [first, second])
  {
    hide Means;
  }

  lemma RefusedWhatever(t: Tables, caps: Caps, rec: Record)
    requires AlwaysRefused(caps, rec)
    ensures Judge(t, caps, rec) in {OverCeiling, SchemaRefusal}
  {
  }

  /** A row with this very content holds the pair. */
  predicate HeldAlike(t: Tables, rec: Record) { Find(t.rows, rec.key).Some? && Find(t.rows, rec.key).value.result == rec.result }

  /** ... and it came from this very call. */
  predicate HeldByUs(t: Tables, rec: Record) { HeldAlike(t, rec) && Find(t.rows, rec.key).value.call == rec.call }

  /** What the writer takes for its own landed write: it goes by content. */
  predicate TakenForOurs(t: Tables, caps: Caps, rec: Record) {
    !caps.OverCeiling(rec.result.spend.cost) && rec.accepted && HeldAlike(t, rec)
  }

  /** Before the call nothing of it is on the ledger but its row, if its row is there. */
  predicate NothingElse(t: Tables, rec: Record) { Movements(t, rec.call) == if HeldByUs(t, rec) then 1 else 0 }

  /** A settled reply leaves the call on the ledger exactly once if and only if the row
      taken for ours, if one is, is ours, and ours, if it is there, is taken for it. So an
      identical result of another call leaves this one off the ledger; and a row of ours
      is booked again only by a caller that has since lowered the ceiling or been refused
      by the schema. */
  lemma SettledAccountsIff(caps: Caps, rec: Record, a: Attempt)
    requires caps.Valid() && rec.Honest() && Means(a.before, a.after, caps, a.now, rec, a.reply, true) && a.reply.Settled?
    requires NothingElse(a.before, rec)
    ensures Movements(a.after, rec.call) == 1 <==> (TakenForOurs(a.before, caps, rec) <==> HeldByUs(a.before, rec))
  {
    LandingMoves(a.before, caps, a.now, rec);
  }

  lemma IdenticalRivalGoesUnbooked() returns (caps: Caps, rec: Record, a: Attempt)
    ensures caps.Valid() && rec.Honest()
    ensures Means(a.before, a.after, caps, a.now, rec, a.reply, true)
    ensures a.reply.Settled? && a.reply.verdict == OwnRow && rec.result.spend.cost == 5
    ensures Movements(a.after, rec.call) == 0
  {
    var key, now := Key(1, "de"), Instant(0, 0);
    var result := Translation("h", "x", "m", "p", Spend(5, 0));
    var t := Tables([Row(key, result, now, 1)], map[0 := MonthRow(Spend(5, 0), None)], [], []);
    caps := Caps(10, 100);
    rec := Record(key, result, true, 2);
    a := Attempt(t, t, now, Settled(OwnRow, 5, None));
    assert Find(t.rows, key) == Some(t.rows[0]);
    assert RowsOf(t.rows[..0], 2) == 0 && BookingsOf(t.unbilled, 2) == 0;
  }
}

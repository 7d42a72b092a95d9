/** The translation tables and the monthly spend ledger.
    `Tables` is what the database holds; the functions below are the statements
    the ledger runs on it (internal/translation/ledger.go and migration 0005). */
module Ledger {
  import opened Options

  /** Provider work that has to be paid for. `unmetered` counts attempts nobody priced. */
  datatype Spend = Spend(cost: int, unmetered: int) {
    predicate IsZero() { cost == 0 && unmetered == 0 }
    /** RecordUnbilledSpend refuses a negative amount; so do the column checks. */
    predicate Bookable() { 0 <= cost && 0 <= unmetered }
    function Plus(other: Spend): Spend { Spend(cost + other.cost, unmetered + other.unmetered) }
  }

  function Nothing(): Spend { Spend(0, 0) }

  /** A transaction's now(): the UTC month it falls in, and the rest of it. */
  datatype Instant = Instant(month: nat, micros: nat)

  datatype Caps = Caps(perArticle: int, monthly: int) {
    predicate Valid() { 0 < perArticle <= monthly }
    predicate OverCeiling(cost: int) { perArticle < cost }
    predicate Reached(spent: int) { monthly <= spent }
  }

  datatype Key = Key(item: nat, locale: string)

  datatype Translation = Translation(headline: string, extract: string, model: string, promptVersion: string, spend: Spend)

  /** A stored translation. `call` is history: which provider call it came from.
      No operation reads it. */
  datatype Row = Row(key: Key, result: Translation, generatedAt: Instant, call: nat)

  /** Spend that produced no translation row; `call` is history as in `Row`. */
  datatype Booking = Booking(month: nat, spend: Spend, call: nat)

  datatype MonthRow = MonthRow(spend: Spend, haltedAt: Option<Instant>) {
    predicate Halted() { haltedAt.Some? }
  }

  datatype HaltEvent = HaltEvent(month: nat, spend: Spend, at: Instant)

  datatype Tables = Tables(rows: seq<Row>, months: map<nat, MonthRow>, unbilled: seq<Booking>, halts: seq<HaltEvent>)

  function Find(rows: seq<Row>, key: Key): (found: Option<Row>)
    ensures found.Some? ==> found.value in rows && found.value.key == key
    ensures found.None? ==> forall row <- rows :: row.key != key
  {
    if |rows| == 0 then None
    else if rows[|rows| - 1].key == key then Some(rows[|rows| - 1])
    else Find(rows[..|rows| - 1], key)
  }

  predicate Has(t: Tables, key: Key) { exists row <- t.rows :: row.key == key }

  /** Ledger.ThisMonth: a month with no row reads as empty and running. */
  function ThisMonth(t: Tables, month: nat): MonthRow {
    if month in t.months then t.months[month] else MonthRow(Nothing(), None)
  }

  /** The one upsert that the 0005 trigger and RecordUnbilledSpend share. */
  function Upsert(months: map<nat, MonthRow>, month: nat, spend: Spend): map<nat, MonthRow> {
    if month in months
    then months[month := months[month].(spend := months[month].spend.Plus(spend))]
    else months[month := MonthRow(spend, None)]
  }

  /** The insert, with the trigger that moves the month row in the same transaction. */
  function Insert(t: Tables, now: Instant, key: Key, result: Translation, call: nat): Tables {
    t.(rows := t.rows + [Row(key, result, now, call)], months := Upsert(t.months, now.month, result.spend))
  }

  function BookUnbilled(t: Tables, now: Instant, spend: Spend, call: nat): Tables {
    t.(months := Upsert(t.months, now.month, spend), unbilled := t.unbilled + [Booking(now.month, spend, call)])
  }

  /** Halt's guarded update matches only a running row at the cap. */
  predicate Latches(t: Tables, month: nat, cap: int) {
    month in t.months && t.months[month].haltedAt.None? && cap <= t.months[month].spend.cost
  }

  /** Halt, with the trigger that announces the one winning update. */
  function Latch(t: Tables, now: Instant, month: nat, cap: int): Tables {
    if Latches(t, month, cap)
    then t.(months := t.months[month := t.months[month].(haltedAt := Some(now))],
            halts := t.halts + [HaltEvent(month, t.months[month].spend, now)])
    else t
  }

  /** Writer.settle: latch the halt when this month has reached the cap. */
  function Settle(t: Tables, caps: Caps, now: Instant): Tables {
    var month := ThisMonth(t, now.month);
    if month.Halted() || !caps.Reached(month.spend.cost) then t
    else Latch(t, now, now.month, caps.monthly)
  }

  // ---- what the books say ----

  function RowSpend(rows: seq<Row>, month: nat): Spend {
    if |rows| == 0 then Nothing()
    else
      var last := rows[|rows| - 1];
      var rest := RowSpend(rows[..|rows| - 1], month);
      if last.generatedAt.month == month then rest.Plus(last.result.spend) else rest
  }

  function UnbilledSpend(bookings: seq<Booking>, month: nat): Spend {
    if |bookings| == 0 then Nothing()
    else
      var last := bookings[|bookings| - 1];
      var rest := UnbilledSpend(bookings[..|bookings| - 1], month);
      if last.month == month then rest.Plus(last.spend) else rest
  }

  function RowsOf(rows: seq<Row>, call: nat): nat {
    if |rows| == 0 then 0
    else RowsOf(rows[..|rows| - 1], call) + (if rows[|rows| - 1].call == call then 1 else 0)
  }

  function BookingsOf(bookings: seq<Booking>, call: nat): nat {
    if |bookings| == 0 then 0
    else BookingsOf(bookings[..|bookings| - 1], call) + (if bookings[|bookings| - 1].call == call then 1 else 0)
  }

  /** How many ledger movements one provider call has caused. */
  function Movements(t: Tables, call: nat): nat { RowsOf(t.rows, call) + BookingsOf(t.unbilled, call) }

  function Announcements(halts: seq<HaltEvent>, month: nat): nat {
    if |halts| == 0 then 0
    else Announcements(halts[..|halts| - 1], month) + (if halts[|halts| - 1].month == month then 1 else 0)
  }

  /** Conservation: a month's total is its rows' costs plus its unbilled bookings. */
  ghost predicate Balanced(t: Tables) {
    forall month: nat ::
      ThisMonth(t, month).spend == RowSpend(t.rows, month).Plus(UnbilledSpend(t.unbilled, month))
  }

  predicate OnePerKey(rows: seq<Row>) {
    forall i, j :: 0 <= i < j < |rows| ==> rows[i].key != rows[j].key
  }

  /** A month is halted exactly when its total has reached the cap. */
  ghost predicate HaltsAtCap(t: Tables, caps: Caps) {
    forall month: nat :: ThisMonth(t, month).Halted() <==> caps.Reached(ThisMonth(t, month).spend.cost)
  }

  /** pipeline.halted appears once for each halted month and for no other,
      and it carries the instant the row carries. */
  ghost predicate AnnouncedOnce(t: Tables) {
    && (forall month: nat :: Announcements(t.halts, month) == if ThisMonth(t, month).Halted() then 1 else 0)
    && (forall halt <- t.halts :: ThisMonth(t, halt.month).haltedAt == Some(halt.at))
  }

  /** What every commit leaves behind. */
  ghost predicate Sound(t: Tables, caps: Caps) {
    Balanced(t) && OnePerKey(t.rows) && HaltsAtCap(t, caps) && AnnouncedOnce(t)
  }

  /** A database nothing has been spent in. */
  ghost predicate Untouched(t: Tables) {
    |t.rows| == |t.unbilled| == |t.halts| == |t.months| == 0
  }

  lemma UntouchedIsSound(t: Tables, caps: Caps)
    requires caps.Valid() && Untouched(t)
    ensures Sound(t, caps)
  {
  }

  lemma InsertBalances(t: Tables, now: Instant, key: Key, result: Translation, call: nat)
    requires Balanced(t)
    ensures Balanced(Insert(t, now, key, result, call))
  {
    var after := Insert(t, now, key, result, call);
    assert after.rows[..|t.rows|] == t.rows;
    forall month: nat
      ensures ThisMonth(after, month).spend == RowSpend(after.rows, month).Plus(UnbilledSpend(after.unbilled, month))
    {
      assert ThisMonth(t, month).spend == RowSpend(t.rows, month).Plus(UnbilledSpend(t.unbilled, month));
    }
  }

  lemma BookingBalances(t: Tables, now: Instant, spend: Spend, call: nat)
    requires Balanced(t)
    ensures Balanced(BookUnbilled(t, now, spend, call))
  {
    var after := BookUnbilled(t, now, spend, call);
    assert after.unbilled[..|t.unbilled|] == t.unbilled;
    forall month: nat
      ensures ThisMonth(after, month).spend == RowSpend(after.rows, month).Plus(UnbilledSpend(after.unbilled, month))
    {
      assert ThisMonth(t, month).spend == RowSpend(t.rows, month).Plus(UnbilledSpend(t.unbilled, month));
    }
  }

  /** `moved` differs from a sound state by spend in one month only. */
  ghost predicate MovedIn(t: Tables, moved: Tables, month: nat) {
    && moved.halts == t.halts
    && (forall other: nat | other != month :: ThisMonth(moved, other) == ThisMonth(t, other))
    && ThisMonth(moved, month).haltedAt == ThisMonth(t, month).haltedAt
    && ThisMonth(t, month).spend.cost <= ThisMonth(moved, month).spend.cost
    && (moved == t || month in moved.months)
  }

  lemma SettleMovesNothing(t: Tables, caps: Caps, now: Instant)
    ensures forall month: nat :: ThisMonth(Settle(t, caps, now), month).spend == ThisMonth(t, month).spend
    ensures Settle(t, caps, now).rows == t.rows && Settle(t, caps, now).unbilled == t.unbilled
    ensures forall month: nat | month != now.month :: ThisMonth(Settle(t, caps, now), month) == ThisMonth(t, month)
  {
  }

  /** Settling after spend has landed is what restores the halt discipline:
      whoever crosses the cap latches it, and announces it, exactly once. */
  lemma SettleRestores(t: Tables, moved: Tables, caps: Caps, now: Instant)
    requires caps.Valid()
    requires HaltsAtCap(t, caps) && AnnouncedOnce(t)
    requires MovedIn(t, moved, now.month)
    ensures HaltsAtCap(Settle(moved, caps, now), caps) && AnnouncedOnce(Settle(moved, caps, now))
  {
    var after := Settle(moved, caps, now);
    SettleMovesNothing(moved, caps, now);
    assert after != moved ==> after.halts[..|moved.halts|] == moved.halts;
    forall month: nat
      ensures ThisMonth(after, month).Halted() <==> caps.Reached(ThisMonth(after, month).spend.cost)
      ensures Announcements(after.halts, month) == if ThisMonth(after, month).Halted() then 1 else 0
    {
      assert ThisMonth(t, month).Halted() <==> caps.Reached(ThisMonth(t, month).spend.cost);
      assert Announcements(t.halts, month) == if ThisMonth(t, month).Halted() then 1 else 0;
    }
  }

  lemma InsertThenSettle(t: Tables, caps: Caps, now: Instant, key: Key, result: Translation, call: nat)
    requires caps.Valid() && Sound(t, caps) && !Has(t, key) && result.spend.Bookable()
    ensures Sound(Settle(Insert(t, now, key, result, call), caps, now), caps)
  {
    InsertBalances(t, now, key, result, call);
    SettleRestores(t, Insert(t, now, key, result, call), caps, now);
    SettleMovesNothing(Insert(t, now, key, result, call), caps, now);
  }

  lemma BookThenSettle(t: Tables, caps: Caps, now: Instant, spend: Spend, call: nat)
    requires caps.Valid() && Sound(t, caps) && spend.Bookable()
    ensures Sound(Settle(BookUnbilled(t, now, spend, call), caps, now), caps)
  {
    BookingBalances(t, now, spend, call);
    SettleRestores(t, BookUnbilled(t, now, spend, call), caps, now);
    SettleMovesNothing(BookUnbilled(t, now, spend, call), caps, now);
  }
}

/** Asking a feed: conditional requests, the retry loop and the pace
    (internal/ingestion/fetch.go and the pure half of poll.go). Durations are whole
    nanoseconds; the arithmetic the program does in floating point is over the reals. */
module Feed {
  import opened Options

  const Second: int := 1_000_000_000
  const MaxBackoff: int := 30 * Second
  const MaxAsk: int := 86_400 * Second

  /** One entry: whether it has a link and text, and the hash of its text. */
  datatype Item = Item(usable: bool, hash: nat)

  datatype Validators = Validators(etag: string, lastModified: string)

  /** A finished exchange: a 304, or a parsed document. */
  datatype Result = Result(notModified: bool, items: seq<Item>, tokens: Validators)

  datatype Cause = RateLimited | Unavailable | Timeout | Refused | Unparsable | TooLarge | Unsafe | Interrupted

  datatype Attempt =
    | Answered(result: Result)
    | Failed(cause: Cause, wait: int, overCap: bool)

  /** What Fetch gives back. */
  datatype Exchange = Exchanged(result: Result) | Failure(cause: Cause, retryAfter: int)

  predicate Retryable(cause: Cause) { cause in {RateLimited, Unavailable, Timeout} }

  // ---- Retry-After ----

  /** A Retry-After header as a number, when it is one. */
  datatype Header = NoNumber | Finite(seconds: real) | Infinite

  function Truncate(x: real): int { if x >= 0.0 then x.Floor else -((-x).Floor) }

  /** feedRetryAfter: the ask, bounded to a day, and whether it ends this call. */
  function RetryAfter(header: Header): (ask: (int, bool))
    ensures 0 <= ask.0 <= MaxAsk
    ensures ask.1 ==> ask.0 >= MaxBackoff
    ensures !ask.1 ==> ask.0 < MaxBackoff
    ensures header.NoNumber? || (header.Finite? && header.seconds <= 0.0) ==> ask == (0, false)
    ensures header.Infinite? || (header.Finite? && header.seconds >= 86_400.0) ==> ask == (86_400_000_000_000, true)
    ensures header.Finite? ==> (ask.1 <==> header.seconds >= 30.0)
    ensures header.Finite? && 0.0 < header.seconds < 86_400.0 ==>
      ask.0 as real <= header.seconds * Second as real < ask.0 as real + 1.0
  {
    match header
    case NoNumber => (0, false)
    case Infinite => (MaxAsk, true)
    case Finite(seconds) =>
      if seconds <= 0.0 then (0, false)
      else if seconds >= 86_400.0 then (MaxAsk, true)
      else (Truncate(seconds * Second as real), seconds >= 30.0)
  }

  // ---- backing off ----

  function Pow2(n: nat): (p: nat)
    ensures p >= 1
  {
    if n == 0 then 1 else 2 * Pow2(n - 1)
  }

  lemma {:induction false} Pow2Monotone(m: nat, n: nat)
    requires m <= n
    ensures Pow2(m) <= Pow2(n)
    decreases n - m
  {
    if m < n { Pow2Monotone(m + 1, n); }
  }

  function Min(a: int, b: int): int { if a <= b then a else b }

  /** fetchBackoff: what the source asked for, or the base doubled for each attempt made;
      never more than the ceiling, and an ask under it is kept whole. */
  method Backoff(attempt: nat, base: int, requested: int) returns (wait: int)
    requires attempt >= 1 && base > 0
    ensures requested > 0 ==> wait == Min(requested, MaxBackoff)
    ensures requested <= 0 ==> wait == Min(base * Pow2(attempt - 1), MaxBackoff)
    ensures 0 < wait <= MaxBackoff
  {
    if requested > 0 {
      return Min(requested, MaxBackoff);
    }
    wait := base;
    var i := 1;
    while i < attempt && wait < MaxBackoff
      invariant 1 <= i <= attempt
      invariant wait == base * Pow2(i - 1)
    {
      Doubles(base, i - 1);
      wait := wait * 2;
      i := i + 1;
    }
    if i < attempt {
      Pow2Monotone(i - 1, attempt - 1);
      ScaledMonotone(base, Pow2(i - 1), Pow2(attempt - 1));
    }
    AtLeastBase(base, Pow2(attempt - 1));
    wait := Min(wait, MaxBackoff);
  }

  lemma Doubles(base: int, n: nat)
    ensures base * Pow2(n) * 2 == base * Pow2(n + 1)
  {
  }

  lemma ScaledMonotone(base: int, a: int, b: int)
    requires base > 0 && a <= b
    ensures base * a <= base * b
  {
  }

  lemma AtLeastBase(base: int, p: int)
    requires base > 0 && p >= 1
    ensures base * p >= base
  {
  }

  // ---- the retry loop ----

  /** Attempt n is not the last: it failed in a way worth another try, nothing told the
      call to stop, and the wait after it was not interrupted. */
  predicate GoesOn(answers: nat -> Attempt, ended: nat -> bool, interrupted: nat -> bool, n: nat) {
    && answers(n).Failed? && Retryable(answers(n).cause) && !answers(n).overCap
    && !ended(n) && !interrupted(n)
  }

  /** withDefaults */
  function MaxAttempts(configured: int): nat { if configured <= 0 then 3 else configured }

  /** The cause reported when attempt n was the last: an interrupted wait is reported as
      the interruption. */
  function CauseOf(answers: nat -> Attempt, ended: nat -> bool, interrupted: nat -> bool, configured: int, n: nat): Cause
    requires answers(n).Failed?
  {
    if n + 1 < MaxAttempts(configured) && Retryable(answers(n).cause) && !answers(n).overCap && !ended(n) && interrupted(n)
    then Interrupted else answers(n).cause
  }

  /** The ask an attempt carries is one feedRetryAfter gave it. */
  predicate WellFormed(a: Attempt) {
    a.Failed? ==> 0 <= a.wait <= MaxAsk && (a.overCap <==> a.wait >= MaxBackoff)
  }

  /** Fetch: attempt n is answered by `answers(n)`, the context has ended after it when
      `ended(n)`, and ends during the wait that follows it when `interrupted(n)`. */
  method Fetch(answers: nat -> Attempt, ended: nat -> bool, interrupted: nat -> bool, configured: int, base: int)
    returns (exchange: Exchange, attempts: nat, waits: seq<int>)
    requires base > 0 && forall n: nat :: WellFormed(answers(n))
    ensures 1 <= attempts <= (if configured <= 0 then 3 else configured)
    // only a source that was busy, unwell or slow is asked again, and none that asked to be left alone
    ensures forall n :: 0 <= n < attempts - 1 ==>
      && answers(n).Failed? && answers(n).cause in {RateLimited, Unavailable, Timeout} && answers(n).wait < 30_000_000_000
      && !ended(n) && !interrupted(n)
    // and it is asked again for as long as that holds
    ensures attempts < (if configured <= 0 then 3 else configured) ==>
      || answers(attempts - 1).Answered? || answers(attempts - 1).cause !in {RateLimited, Unavailable, Timeout}
      || answers(attempts - 1).wait >= 30_000_000_000 || ended(attempts - 1) || interrupted(attempts - 1)
    ensures match answers(attempts - 1)
      case Answered(result) => exchange == Exchanged(result)
        case Failed(cause, wait, overCap) => exchange == Failure(CauseOf(answers, ended, interrupted, configured, attempts - 1), wait)
    ensures attempts - 1 <= |waits| <= attempts
    ensures forall n :: 0 <= n < |waits| ==> 0 < waits[n] <= MaxBackoff
    ensures forall n :: 0 <= n < |waits| ==> answers(n).Failed? && waits[n] >= answers(n).wait
  {
    var max := MaxAttempts(configured);
    attempts, waits := 0, [];
    exchange := Failure(Interrupted, 0);
    var going := true;
    while going
      invariant 0 <= attempts <= max == MaxAttempts(configured)
      invariant going ==> attempts < max && |waits| == attempts
      invariant forall n :: 0 <= n < (if going then attempts else attempts - 1) ==> GoesOn(answers, ended, interrupted, n)
      invariant !going ==> attempts >= 1 && (attempts < max ==> !GoesOn(answers, ended, interrupted, attempts - 1))
      invariant !going ==> match answers(attempts - 1)
        case Answered(result) => exchange == Exchanged(result)
        case Failed(cause, wait, overCap) => exchange == Failure(CauseOf(answers, ended, interrupted, configured, attempts - 1), wait)
      invariant attempts - 1 <= |waits| <= attempts
      invariant forall n :: 0 <= n < |waits| ==> 0 < waits[n] <= MaxBackoff && answers(n).Failed? && waits[n] >= answers(n).wait
      decreases max - attempts, going
    {
      var n := attempts;
      attempts := attempts + 1;
      match answers(n) {
        case Answered(result) =>
          exchange, going := Exchanged(result), false;
        case Failed(cause, wait, overCap) =>
          assert WellFormed(answers(n));
          exchange := Failure(cause, wait);
          if attempts == max || overCap || !Retryable(cause) || ended(n) {
            going := false;
          } else {
            var pause := Backoff(attempts, base, wait);
            waits := waits + [pause];
            if interrupted(n) {
              exchange, going := Failure(Interrupted, wait), false;
            }
          }
      }
    }    assert attempts < max ==> !GoesOn(answers, ended, interrupted, attempts - 1);
    assert WellFormed(answers(attempts - 1));
    forall n | 0 <= n < attempts - 1
      ensures answers(n).Failed? && answers(n).cause in {RateLimited, Unavailable, Timeout} && answers(n).wait < 30_000_000_000
      ensures !ended(n) && !interrupted(n)
    {
      assert GoesOn(answers, ended, interrupted, n) && WellFormed(answers(n));
    }
  }

  // ---- the pace ----

  /** pollGate: the interval less the jitter's full early swing. */
  function Gate(interval: nat): int { Truncate(0.9 * interval as real) }

  /** jitteredInterval: r is in [0, 1). */
  function Jittered(interval: int, r: real): int {
    if interval <= 0 then 0 else interval + Truncate((r * 2.0 - 1.0) * 0.1 * interval as real)
  }

  /** No wait is shorter than the gate, so a cycle's own successor always comes late
      enough; and none is longer than the interval and a tenth. */
  lemma NeverEarlierThanGate(interval: nat, r: real)
    requires 0.0 <= r < 1.0
    ensures Gate(interval) <= Jittered(interval, r)
    ensures 10 * Jittered(interval, r) <= 11 * interval
  {
    if interval > 0 {
      var tenth := 0.1 * interval as real;
      Scaled(r, tenth);
      Grouped(r, interval as real);
      var offset := (r * 2.0 - 1.0) * 0.1 * interval as real;
      Swings(interval, tenth, 0.9 * interval as real, offset);
    }
  }

  /** Each is what it says, to within a nanosecond of the exact amount: nine tenths of the
      interval, and the interval moved by up to a tenth either way as r goes from 0 to 1. */
  lemma PaceIs(interval: nat, r: real)
    requires 0.0 <= r < 1.0
    ensures 9 * interval - 10 < 10 * Gate(interval) <= 9 * interval
    ensures interval > 0 ==>
      var exact := interval as real + (r * 2.0 - 1.0) * (0.1 * interval as real);
      exact - 1.0 < Jittered(interval, r) as real < exact + 1.0
  {
    TruncateNear(0.9 * interval as real);
    Grouped(r, interval as real);
    var offset := (r * 2.0 - 1.0) * 0.1 * interval as real;
    TruncateNear(offset);
    var moved := Truncate(offset);
    if interval > 0 {
      assert Jittered(interval, r) == interval + moved;
      assert (interval + moved) as real == interval as real + moved as real;
    }
    hide Truncate, Jittered;
  }

  lemma Grouped(r: real, x: real)
    ensures (r * 2.0 - 1.0) * 0.1 * x == (r * 2.0 - 1.0) * (0.1 * x)
  {
  }

  lemma Swings(interval: nat, tenth: real, early: real, offset: real)
    requires 10.0 * tenth == interval as real && early == 9.0 * tenth && -tenth <= offset <= tenth
    ensures Truncate(early) <= interval + Truncate(offset)
    ensures 10 * (interval + Truncate(offset)) <= 11 * interval
  {
    TruncateNear(offset);
    TruncateNear(early);
    hide Truncate;
    var t, g := Truncate(offset), Truncate(early);
    assert offset < 0.0 ==> g as real <= interval as real + t as real;
  }

  lemma Scaled(r: real, tenth: real)
    requires 0.0 <= r < 1.0 && tenth >= 0.0
    ensures -tenth <= (r * 2.0 - 1.0) * tenth <= tenth
  {
    assert (r * 2.0 - 1.0 + 1.0) * tenth >= 0.0;
    assert (1.0 - (r * 2.0 - 1.0)) * tenth >= 0.0;
  }

  /** Truncation moves toward zero, by less than one. */
  lemma TruncateNear(x: real)
    ensures x >= 0.0 ==> Truncate(x) as real <= x < Truncate(x) as real + 1.0
    ensures x < 0.0 ==> Truncate(x) as real - 1.0 < x <= Truncate(x) as real
  {
  }

  // ---- validators ----

  /** refreshedValidators: each token of the response, or the stored one where it has none. */
  function Refreshed(stored: Validators, tokens: Validators): Validators {
    Validators(if tokens.etag == "" then stored.etag else tokens.etag,
               if tokens.lastModified == "" then stored.lastModified else tokens.lastModified)
  }

  function Hashes(items: seq<Item>): set<nat> { set i | 0 <= i < |items| && items[i].usable :: items[i].hash }

  /** What an honest source means by its tokens: the usable items of the document each
      was issued for (sections 8.8.2 and 8.8.3 of RFC 9110). */
  datatype World = World(ofETag: string -> set<nat>, ofDate: string -> set<nat>)

  /** Everything a pair of tokens vouches for is in `recorded`. */
  ghost predicate Covered(w: World, tokens: Validators, recorded: set<nat>) {
    && (tokens.etag != "" ==> w.ofETag(tokens.etag) <= recorded)
    && (tokens.lastModified != "" ==> w.ofDate(tokens.lastModified) <= recorded)
  }

  /** The tokens were issued for this document. */
  ghost predicate Issued(w: World, tokens: Validators, document: set<nat>) {
    && (tokens.etag != "" ==> w.ofETag(tokens.etag) == document)
    && (tokens.lastModified != "" ==> w.ofDate(tokens.lastModified) == document)
  }

  /** An honest answer while `document` is current: its tokens are for that document, a
      200 carries all of it, and a 304 is sent only when a validator of the request was
      issued for it (sections 13.1.2, 13.1.3 and 15.4.5 of RFC 9110; a source sent both
      is to look at the ETag alone, and one that looks at the date will do). */
  ghost predicate Honest(w: World, sent: Validators, result: Result, document: set<nat>) {
    && Issued(w, result.tokens, document)
    && (result.notModified ==> (sent.etag != "" && w.ofETag(sent.etag) == document)
                               || (sent.lastModified != "" && w.ofDate(sent.lastModified) == document))
    && (!result.notModified ==> Hashes(result.items) == document)
  }

  /** A 304 says nothing new, and never hides an item: what is current is recorded. */
  lemma NotModifiedHidesNothing(w: World, sent: Validators, result: Result, document: set<nat>, recorded: set<nat>)
    requires Covered(w, sent, recorded) && Honest(w, sent, result, document) && result.notModified
    ensures document <= recorded && Covered(w, Refreshed(sent, result.tokens), recorded)
  {
  }

  /** Tokens are advanced only over a document that is recorded whole. */
  lemma RefreshCovers(w: World, sent: Validators, result: Result, document: set<nat>, recorded: set<nat>)
    requires Covered(w, sent, recorded) && Honest(w, sent, result, document) && document <= recorded
    ensures Covered(w, Refreshed(sent, result.tokens), recorded)
  {
  }
}

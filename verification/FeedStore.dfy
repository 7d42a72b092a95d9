/** The evidence store, the source rows and the poll that joins them
    (internal/ingestion/store.go, source.go and poll.go). */
module FeedStore {
  import opened Options
  import opened Feed
  import Writer

  /** A source row. Its id is its position, and positions are in URL order. */
  datatype Source = Source(
    active: bool,
    stored: Validators,
    lastPolled: Option<int>,
    failed: bool,
    retrieved: nat,
    duplicates: nat,
    notBefore: Option<int>)

  /** One stored item: its source and the hash of its text. An item.retrieved event
      names one of these. */
  datatype Evidence = Evidence(source: nat, hash: nat)

  datatype PollOutcome = PollOutcome(tokens: Validators, failed: bool, retrieved: nat, duplicates: nat, retryAfter: int)

  predicate Due(s: Source, now: int, gate: int) {
    && s.active
    && (s.lastPolled.None? || s.lastPolled.value < now - gate)
    && (s.notBefore.None? || s.notBefore.value <= now)
  }

  function Polled(s: Source, now: int, o: PollOutcome): Source {
    s.(stored := o.tokens, lastPolled := Some(now), failed := o.failed, retrieved := o.retrieved, duplicates := o.duplicates,
       notBefore := if o.retryAfter > 0 then Some(now + o.retryAfter) else None)
  }

  /** What pollSource writes: nothing is refreshed unless the exchange was a 304, or a
      document all of whose usable items were recorded. */
  function OutcomeOf(stored: Validators, exchange: Exchange, recorded: Recording): PollOutcome {
    match exchange
    case Failure(_, retryAfter) => PollOutcome(stored, true, 0, 0, retryAfter)
    case Exchanged(result) =>
      if result.notModified then PollOutcome(Refreshed(stored, result.tokens), false, 0, 0, 0)
      else PollOutcome(if recorded.whole then Refreshed(stored, result.tokens) else stored,
                       !recorded.whole, recorded.retrieved, recorded.duplicates, 0)
  }

  /** What recordItems reports; `whole` when no write failed. */
  datatype Recording = Recording(retrieved: nat, duplicates: nat, whole: bool)

  /** What became of one RecordRetrieval. */
  datatype Retrieval = Stored | Duplicate | Unusable | Unwritten

  /** How the transaction of one RecordRetrieval fares. */
  datatype Luck = Luck(begins: bool, inserts: bool, announces: bool, commit: Writer.CommitFate)

  ghost predicate Unique(evidence: seq<Evidence>) {
    forall i, j :: 0 <= i < j < |evidence| ==> evidence[i] != evidence[j]
  }

  /** The hashes on record for one source. */
  ghost function RecordedFor(evidence: seq<Evidence>, source: nat): set<nat> {
    set i | 0 <= i < |evidence| && evidence[i].source == source :: evidence[i].hash
  }

  /** The usable items among these that the store holds and those it does not. */
  ghost predicate AllRecorded(evidence: seq<Evidence>, source: nat, items: seq<Item>) {
    Hashes(items) <= RecordedFor(evidence, source)
  }

  function UsableCount(items: seq<Item>): nat {
    if |items| == 0 then 0 else UsableCount(items[..|items| - 1]) + if items[|items| - 1].usable then 1 else 0
  }

  /** The item at n has been stored before its turn: it was on record, or an earlier one
      of the same text was. */
  ghost predicate Known(evidence: seq<Evidence>, source: nat, items: seq<Item>, n: nat)
    requires n < |items|
  {
    Evidence(source, items[n].hash) in evidence || exists k :: 0 <= k < n && items[k].usable && items[k].hash == items[n].hash
  }

  /** The write of item n fails: its transaction does not open, its insert is not answered,
      or it is new and its event or its commit fails or goes unheard. */
  ghost predicate WriteFails(evidence: seq<Evidence>, source: nat, items: seq<Item>, luck: nat -> Luck, n: nat)
    requires n < |items|
  {
    && items[n].usable
    && (!luck(n).begins || !luck(n).inserts || (!Known(evidence, source, items, n) && (!luck(n).announces || !luck(n).commit.Landed?)))
  }

  /** The hashes of usable items before n. */
  ghost predicate AmongFirst(source: nat, items: seq<Item>, n: nat, e: Evidence)
    requires n <= |items|
  {
    e.source == source && exists k :: 0 <= k < n && items[k].usable && items[k].hash == e.hash
  }

  class Database {
    var sources: seq<Source>
    var evidence: seq<Evidence>
    var events: seq<Evidence>

    /** Every stored item has its one event, and no text is stored twice for a source. */
    ghost predicate Valid()
      reads this
    {
      evidence == events && Unique(evidence)
    }

    constructor (sources: seq<Source>)
      ensures Valid() && this.sources == sources && evidence == []
    {
      this.sources, evidence, events := sources, [], [];
    }

    /** Item and event commit together or not at all. A commit whose acknowledgement is
        lost is reported as a failure and has landed. */
    method RecordRetrieval(source: nat, item: Item, luck: Luck) returns (r: Retrieval)
      requires Valid()
      modifies this`evidence, this`events
      ensures Valid()
      ensures r.Unusable? <==> !item.usable
      ensures r.Duplicate? <==> item.usable && luck.begins && luck.inserts && Evidence(source, item.hash) in old(evidence)
      ensures r.Stored? <==>
        item.usable && luck == Luck(true, true, true, Writer.Landed) && Evidence(source, item.hash) !in old(evidence)
      ensures r.Stored? || r.Duplicate? ==> Evidence(source, item.hash) in evidence
      ensures if r.Stored? || (r.Unwritten? && luck.commit.Unheard? && luck.begins && luck.inserts && luck.announces && Evidence(source, item.hash) !in old(evidence))
              then evidence == old(evidence) + [Evidence(source, item.hash)]
              else evidence == old(evidence)
    {
      var row := Evidence(source, item.hash);
      if !item.usable {
        r := Unusable;
      } else if !luck.begins || !luck.inserts {
        r := Unwritten;
      } else if row in evidence {
        r := Duplicate;
      } else if !luck.announces || luck.commit.Refused? {
        r := Unwritten;
      } else {
        evidence, events := evidence + [row], events + [row];
        r := if luck.commit.Landed? then Stored else Unwritten;
      }
    }

    /** One UPDATE of one row; an id no row has is an error. */
    method RecordPollOutcome(source: nat, o: PollOutcome, now: int, fate: Writer.CommitFate) returns (ok: bool)
      modifies this`sources
      ensures ok == (source < |old(sources)| && fate.Landed?)
      ensures sources == if source < |old(sources)| && !fate.Refused?
                         then old(sources)[source := Polled(old(sources)[source], now, o)] else old(sources)
    {
      if source < |sources| && !fate.Refused? {
        sources := sources[source := Polled(sources[source], now, o)];
      }
      ok := source < |sources| && fate.Landed?;
    }

    /** The sources a cycle walks: those due, in URL order. */
    method ListActiveSources(now: int, gate: int) returns (due: seq<nat>)
      ensures forall i :: i in due <==> 0 <= i < |sources| && Due(sources[i], now, gate)
      ensures forall i: nat :: i < |sources| ==>
        (i in due <==>
           && sources[i].active
           && (sources[i].lastPolled.Some? ==> sources[i].lastPolled.value + gate < now)
           && (sources[i].notBefore.Some? ==> sources[i].notBefore.value <= now))
      ensures forall a, b :: 0 <= a < b < |due| ==> due[a] < due[b]
    {
      due := [];
      for n := 0 to |sources|
        invariant forall i :: i in due <==> 0 <= i < n && Due(sources[i], now, gate)
        invariant forall a :: 0 <= a < |due| ==> due[a] < n
        invariant forall a, b :: 0 <= a < b < |due| ==> due[a] < due[b]
      {
        if Due(sources[n], now, gate) { due := due + [n]; }
      }
    }
  }

  /** Item n is the first whose write fails. */
  ghost predicate FirstFailure(evidence: seq<Evidence>, source: nat, items: seq<Item>, luck: nat -> Luck, n: nat)
    requires n < |items|
  {
    WriteFails(evidence, source, items, luck, n) && forall k :: 0 <= k < n ==> !WriteFails(evidence, source, items, luck, k)
  }

  /** What is reported of it: the usable items before it, and no more. */
  ghost predicate StopsAt(evidence: seq<Evidence>, source: nat, items: seq<Item>, luck: nat -> Luck, n: nat, r: Recording)
    requires n < |items|
  {
    FirstFailure(evidence, source, items, luck, n) && r.retrieved + r.duplicates == UsableCount(items[..n])
  }

  predicate HasDocument(exchange: Exchange) { exchange.Exchanged? && !exchange.result.notModified }

  /** A poll fails exactly when the exchange does, or the write of a usable item of the
      document it brought does. */
  ghost predicate Fails(evidence: seq<Evidence>, source: nat, exchange: Exchange, luck: nat -> Luck) {
    exchange.Failure? || (HasDocument(exchange) && exists n: nat :: n < |exchange.result.items| && WriteFails(evidence, source, exchange.result.items, luck, n))
  }

  class Poller {
    const db: Database

    constructor (db: Database)
      ensures this.db == db
    {
      this.db := db;
    }

    /** Items in order, stopping at the first write that fails: the counts are of what came
        before it, and everything usable before it is on record. */
    method RecordItems(source: nat, items: seq<Item>, luck: nat -> Luck) returns (r: Recording)
      requires db.Valid()
      modifies db`evidence, db`events
      ensures db.Valid() && old(db.evidence) <= db.evidence
      ensures r.whole <==> forall n :: 0 <= n < |items| ==> !WriteFails(old(db.evidence), source, items, luck, n)
      ensures r.whole ==> AllRecorded(db.evidence, source, items) && r.retrieved + r.duplicates == UsableCount(items)
      ensures r.whole ==> forall k :: 0 <= k < |items| && items[k].usable ==> Evidence(source, items[k].hash) in db.evidence
      ensures r.whole ==> |db.evidence| == |old(db.evidence)| + r.retrieved
      ensures !r.whole ==> exists n: nat :: n < |items| && StopsAt(old(db.evidence), source, items, luck, n, r)
      ensures r.retrieved <= |db.evidence| - |old(db.evidence)| <= r.retrieved + (if r.whole then 0 else 1)
      ensures forall e <- db.evidence :: e in old(db.evidence) || (e.source == source && e.hash in Hashes(items))
    {
      var retrieved, duplicates, whole, n := 0, 0, true, 0;
      while n < |items| && whole
        invariant n <= |items| && db.Valid() && old(db.evidence) <= db.evidence
        invariant whole ==> retrieved + duplicates == UsableCount(items[..n]) && |db.evidence| == |old(db.evidence)| + retrieved
        invariant whole ==> forall k :: 0 <= k < n && items[k].usable ==> Evidence(source, items[k].hash) in db.evidence
        invariant whole ==> forall e <- db.evidence :: e in old(db.evidence) || AmongFirst(source, items, n, e)
        invariant whole ==> forall k :: 0 <= k < n ==> !WriteFails(old(db.evidence), source, items, luck, k)
        invariant !whole ==> n > 0 && StopsAt(old(db.evidence), source, items, luck, n - 1, Recording(retrieved, duplicates, false))
        invariant retrieved <= |db.evidence| - |old(db.evidence)| <= retrieved + (if whole then 0 else 1)
        invariant forall e <- db.evidence :: e in old(db.evidence) || (e.source == source && e.hash in Hashes(items))
      {
        hide Unique;
        assert items[..n + 1][..n] == items[..n];
        if items[n].usable {
          assert items[n].hash in Hashes(items);
          assert Known(old(db.evidence), source, items, n) <==> Evidence(source, items[n].hash) in db.evidence;
          var outcome := db.RecordRetrieval(source, items[n], luck(n));
          match outcome {
            case Stored => retrieved := retrieved + 1;
            case Duplicate => duplicates := duplicates + 1;
            case _ => whole := false;
          }
        }
        n := n + 1;
      }
      if whole { assert items[..n] == items; RecordedAre(db.evidence, source, items); }
      r := Recording(retrieved, duplicates, whole);
    }

    /** Fetch's answer to the stored validators is recorded, and then the outcome is. */
    method PollSource(source: nat, exchange: Exchange, luck: nat -> Luck, now: int, fate: Writer.CommitFate)
      requires db.Valid() && source < |db.sources|
      modifies db
      ensures db.Valid() && old(db.evidence) <= db.evidence
      ensures |db.sources| == |old(db.sources)| && forall i :: 0 <= i < |db.sources| && i != source ==> db.sources[i] == old(db.sources[i])
      ensures fate.Refused? ==> db.sources == old(db.sources)
      ensures !fate.Refused? ==>
        exists r: Recording :: PollOf(old(db.sources[source]), db.sources[source], exchange, r, now, db.evidence, source)
      // and in so many words: the row says when, and whether, and what was stored
      ensures var row, was := db.sources[source], old(db.sources[source]);
        !fate.Refused? ==>
        && row.lastPolled == Some(now) && row.active == was.active
        && (row.failed <==> Fails(old(db.evidence), source, exchange, luck))
        && (row.failed ==> row.stored == was.stored)
        && (!row.failed ==>
              && row.stored.etag == (if exchange.result.tokens.etag == "" then was.stored.etag else exchange.result.tokens.etag)
              && row.stored.lastModified ==
                   (if exchange.result.tokens.lastModified == "" then was.stored.lastModified else exchange.result.tokens.lastModified))
        && row.notBefore == (if exchange.Failure? && exchange.retryAfter > 0 then Some(now + exchange.retryAfter) else None)
        && (exchange.Failure? || exchange.result.notModified ==> row.retrieved == row.duplicates == 0 && db.evidence == old(db.evidence))
        && (HasDocument(exchange) && !row.failed ==>
              row.retrieved == |db.evidence| - |old(db.evidence)| && row.retrieved + row.duplicates == UsableCount(exchange.result.items))
        && (HasDocument(exchange) && row.failed ==>
              && row.retrieved <= |db.evidence| - |old(db.evidence)| <= row.retrieved + 1
              && exists n: nat :: n < |exchange.result.items|
                   && StopsAt(old(db.evidence), source, exchange.result.items, luck, n, Recording(row.retrieved, row.duplicates, false)))
    {
      var stored := db.sources[source].stored;
      var r := Recording(0, 0, false);
      if exchange.Exchanged? && !exchange.result.notModified {
        r := RecordItems(source, exchange.result.items, luck);
      }
      ghost var row := db.sources[source];
      var _ := db.RecordPollOutcome(source, OutcomeOf(stored, exchange, r), now, fate);
      assert !fate.Refused? ==> PollOf(row, db.sources[source], exchange, r, now, db.evidence, source);
    }

    /** One cycle: every source due, in URL order, until the context ends. `answer(n, v)` is
        what source n answers to the validators v, and `documents(n)` what it serves. What
        is not due is left alone, and the stored tokens of every honest source go on
        vouching only for what is recorded. */
    method Cycle(gate: int, listedAt: int, clock: nat -> int, answer: (nat, Validators) -> Exchange, luck: (nat, nat) -> Luck,
                 fate: nat -> Writer.CommitFate, ended: nat -> bool, ghost worlds: nat -> World, ghost documents: nat -> set<nat>)
      returns (polled: seq<nat>)
      requires db.Valid() && HonestAnswers(worlds, documents, answer) && AllCovered(worlds, db.sources, db.evidence)
      modifies db
      ensures db.Valid() && old(db.evidence) <= db.evidence
      ensures AllCovered(worlds, db.sources, db.evidence)
      ensures |db.sources| == |old(db.sources)|
      ensures forall i :: 0 <= i < |db.sources| && !Due(old(db.sources[i]), listedAt, gate) ==> db.sources[i] == old(db.sources[i])
      // those polled were due, each once and in URL order; every due one unless the context ended
      ensures forall a, b :: 0 <= a < b < |polled| ==> polled[a] < polled[b]
      ensures forall i <- polled :: i < |db.sources| && Due(old(db.sources[i]), listedAt, gate)
      ensures (forall n: nat :: !ended(n)) ==>
        forall i: nat :: i < |db.sources| && Due(old(db.sources[i]), listedAt, gate) ==> i in polled
      // and what was written on each row says so
      ensures forall k :: 0 <= k < |polled| && !fate(k).Refused? ==>
        polled[k] < |db.sources| && db.sources[polled[k]].lastPolled == Some(clock(k))
    {
      hide Covered, Honest, RecordedFor, AllRecorded, Due, UsableCount, Fails, StopsAt, HasDocument, Refreshed;
      var due := db.ListActiveSources(listedAt, gate);
      polled := [];
      var stopped := false;
      while |polled| < |due| && !stopped
        invariant |polled| <= |due| && polled == due[..|polled|] && db.Valid() && old(db.evidence) <= db.evidence
        invariant |db.sources| == |old(db.sources)|
        invariant AllCovered(worlds, db.sources, db.evidence)
        invariant forall i :: 0 <= i < |db.sources| && i !in polled ==> db.sources[i] == old(db.sources[i])
        invariant forall k :: 0 <= k < |polled| && !fate(k).Refused? ==>
        polled[k] < |db.sources| && db.sources[polled[k]].lastPolled == Some(clock(k))
        invariant stopped ==> exists n: nat :: ended(n)
        decreases |due| - |polled|, !stopped
      {
        var k := |polled|;
        var n := due[k];
        assert n in due;
        ghost var before, evidence := db.sources, db.evidence;
        var exchange := answer(n, db.sources[n].stored);
        PollSource(n, exchange, (j: nat) => luck(n, j), clock(k), fate(k));
        StillCovered(worlds, documents, answer, before, evidence, db.sources, db.evidence, n, clock(k));
        stopped := ended(k);
        polled := polled + [n];
      }
      assert forall i <- polled :: i in due;
    }
  }

  ghost predicate HonestAnswers(worlds: nat -> World, documents: nat -> set<nat>, answer: (nat, Validators) -> Exchange) {
    forall n: nat, sent: Validators :: answer(n, sent).Exchanged? ==> Honest(worlds(n), sent, answer(n, sent).result, documents(n))
  }

  ghost predicate AllCovered(worlds: nat -> World, sources: seq<Source>, evidence: seq<Evidence>) {
    forall n :: 0 <= n < |sources| ==> Covered(worlds(n), sources[n].stored, RecordedFor(evidence, n))
  }

  lemma RecordedGrows(evidence: seq<Evidence>, more: seq<Evidence>, source: nat)
    requires evidence <= more
    ensures RecordedFor(evidence, source) <= RecordedFor(more, source)
  {
    forall h <- RecordedFor(evidence, source) ensures h in RecordedFor(more, source) {
      var i :| 0 <= i < |evidence| && evidence[i].source == source && evidence[i].hash == h;
      assert more[i] == evidence[i];
    }
  }

  /** One poll keeps every source's tokens covered. */
  lemma StillCovered(worlds: nat -> World, documents: nat -> set<nat>, answer: (nat, Validators) -> Exchange,
                     before: seq<Source>, evidence: seq<Evidence>, sources: seq<Source>, more: seq<Evidence>, n: nat, now: int)
    requires HonestAnswers(worlds, documents, answer) && AllCovered(worlds, before, evidence) && evidence <= more
    requires |sources| == |before| && n < |before| && forall i :: 0 <= i < |before| && i != n ==> sources[i] == before[i]
    requires sources[n] == before[n] || exists r: Recording ::
      PollOf(before[n], sources[n], answer(n, before[n].stored), r, now, more, n)
    ensures AllCovered(worlds, sources, more)
  {
    forall i | 0 <= i < |sources| ensures Covered(worlds(i), sources[i].stored, RecordedFor(more, i)) {
      RecordedGrows(evidence, more, i);
      assert Covered(worlds(i), before[i].stored, RecordedFor(evidence, i));
    }
    if sources[n] != before[n] {
      var exchange, sent := answer(n, before[n].stored), before[n].stored;
      if exchange.Exchanged? {
        assert Honest(worlds(n), sent, exchange.result, documents(n));
        if exchange.result.notModified {
          NotModifiedHidesNothing(worlds(n), sent, exchange.result, documents(n), RecordedFor(more, n));
        }
      }
    }
  }

  /** The row after one poll, and what its evidence must hold. */
  ghost predicate PollOf(s: Source, s': Source, exchange: Exchange, r: Recording, now: int, evidence: seq<Evidence>, source: nat) {
    && s' == Polled(s, now, OutcomeOf(s.stored, exchange, r))
    && (exchange.Exchanged? && !exchange.result.notModified && r.whole ==> AllRecorded(evidence, source, exchange.result.items))
  }

  lemma RecordedAre(evidence: seq<Evidence>, source: nat, items: seq<Item>)
    requires forall k :: 0 <= k < |items| && items[k].usable ==> Evidence(source, items[k].hash) in evidence
    ensures AllRecorded(evidence, source, items)
  {
    forall h <- Hashes(items) ensures h in RecordedFor(evidence, source) {
      var k :| 0 <= k < |items| && items[k].usable && items[k].hash == h;
      var i :| 0 <= i < |evidence| && evidence[i] == Evidence(source, h);
      assert evidence[i].source == source;
    }
  }
}

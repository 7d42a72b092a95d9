/** Replicas polling one source: the fleet lock, the persisted pace and the stored
    validators, over every interleaving (internal/ingestion/poll.go, lines 131-265). */
module PollFleet {
  import opened Options
  import opened Feed
  import opened FeedStore
  import opened Writer
  import Runs

  datatype Phase =
    | Idle
    | Holding
    | Listed(at: int, sent: Validators)
    | Asking(started: int, sent: Validators)
    | Answered(started: int, sent: Validators, exchange: Exchange, document: set<nat>, done: nat, r: Recording)
    | Done

  /** A poll whose outcome was recorded. */
  datatype Poll = Poll(started: int, recorded: int, asked: int)

  /** `document` is what the source would serve now: the hashes of its usable items. */
  datatype State = State(
    now: int,
    source: Source,
    document: set<nat>,
    recorded: set<nat>,
    workers: seq<Phase>,
    lock: Option<nat>,
    polls: seq<Poll>)

  datatype Action =
    | Tick(elapsed: nat)
    | Publish(document: set<nat>)
    | TakeLock(worker: nat)
    | List(worker: nat)
    | Ask(worker: nat)
    | Answer(worker: nat, exchange: Exchange)
    | Write(worker: nat, fate: CommitFate)
    | Record(worker: nat, fate: CommitFate)
    | Leave(worker: nat)     // the cycle ends, or the process does
    | LoseLock(worker: nat)  // the lock's session dies and the cycle does not notice

  predicate HasItems(exchange: Exchange) { exchange.Exchanged? && !exchange.result.notModified }

  /** Every item has been tried, or one of them could not be written. */
  predicate Finished(p: Phase) {
    p.Answered? && (HasItems(p.exchange) && p.r.whole ==> p.done >= |p.exchange.result.items|)
  }

  function Put(s: State, w: nat, p: Phase): State
    requires w < |s.workers|
  {
    s.(workers := s.workers[w := p])
  }

  /** recordItems, one item: an unusable one is skipped, a stored one is a duplicate. */
  function WriteItem(s: State, w: nat, fate: CommitFate): State
    requires w < |s.workers| && s.workers[w].Answered? && HasItems(s.workers[w].exchange)
    requires s.workers[w].done < |s.workers[w].exchange.result.items|
  {
    var p := s.workers[w];
    var item := p.exchange.result.items[p.done];
    if !item.usable then Put(s, w, p.(done := p.done + 1))
    else if item.hash in s.recorded then Put(s, w, p.(done := p.done + 1, r := p.r.(duplicates := p.r.duplicates + 1)))
    else
      var r := if fate.Landed? then p.r.(retrieved := p.r.retrieved + 1) else p.r.(whole := false);
      Put(s, w, p.(done := p.done + 1, r := r)).(recorded := if fate.Refused? then s.recorded else s.recorded + {item.hash})
  }

  function RecordOutcome(s: State, w: nat, fate: CommitFate): State
    requires w < |s.workers| && s.workers[w].Answered?
  {
    var p := s.workers[w];
    var o := OutcomeOf(p.sent, p.exchange, p.r);
    if fate.Refused? then Put(s, w, Done)
    else Put(s, w, Done).(source := Polled(s.source, s.now, o), polls := s.polls + [Poll(p.started, s.now, o.retryAfter)])
  }

  /** One step; an action the phase does not allow changes nothing. */
  function Next(gate: int, s: State, a: Action): State {
    match a
    case Tick(elapsed) => s.(now := s.now + elapsed)
    case Publish(document) => s.(document := document)
    case TakeLock(w) =>
      if w < |s.workers| && s.workers[w].Idle? && s.lock.None? then Put(s, w, Holding).(lock := Some(w)) else s
    case List(w) =>
      if w < |s.workers| && s.workers[w].Holding?
      then Put(s, w, if Due(s.source, s.now, gate) then Listed(s.now, s.source.stored) else Done) else s
    case Ask(w) =>
      if w < |s.workers| && s.workers[w].Listed? then Put(s, w, Asking(s.now, s.workers[w].sent)) else s
    case Answer(w, exchange) =>
      if w < |s.workers| && s.workers[w].Asking?
      then Put(s, w, Phase.Answered(s.workers[w].started, s.workers[w].sent, exchange, s.document, 0, Recording(0, 0, true))) else s
    case Write(w, fate) =>
      if w < |s.workers| && s.workers[w].Answered? && !Finished(s.workers[w]) then WriteItem(s, w, fate) else s
    case Record(w, fate) =>
      if w < |s.workers| && Finished(s.workers[w]) then RecordOutcome(s, w, fate) else s
    case Leave(w) =>
      if w < |s.workers| then Put(s, w, Idle).(lock := if s.lock == Some(w) then None else s.lock) else s
    case LoseLock(w) => s.(lock := if s.lock == Some(w) then None else s.lock)
  }

  function Step(gate: int): (State, Action) -> State { (s, a) => Next(gate, s, a) }

  function Run(gate: int, s: State, actions: seq<Action>): State { Runs.Fold(Step(gate), s, actions) }

  // ---- validators never run ahead of evidence ----

  /** An answer is honest about the document current when it is given. */
  ghost predicate HonestStep(w: World, s: State, a: Action) {
    a.Answer? && a.worker < |s.workers| && s.workers[a.worker].Asking? && a.exchange.Exchanged? ==>
      Honest(w, s.workers[a.worker].sent, a.exchange.result, s.document)
  }

  ghost predicate HonestRun(w: World, gate: int, s: State, actions: seq<Action>) {
    forall n :: 0 <= n < |actions| ==> HonestStep(w, Run(gate, s, actions[..n]), actions[n])
  }

  ghost predicate PhaseCovered(w: World, p: Phase, recorded: set<nat>) {
    && (p.Listed? || p.Asking? || p.Answered? ==> Covered(w, p.sent, recorded))
    && (p.Answered? && p.exchange.Exchanged? ==> Honest(w, p.sent, p.exchange.result, p.document))
    && (p.Answered? && HasItems(p.exchange) && p.r.whole ==>
          forall k :: 0 <= k < p.done && k < |p.exchange.result.items| && p.exchange.result.items[k].usable ==>
            p.exchange.result.items[k].hash in recorded)
  }

  ghost predicate Evidenced(w: World, s: State) {
    && Covered(w, s.source.stored, s.recorded)
    && forall n :: 0 <= n < |s.workers| ==> PhaseCovered(w, s.workers[n], s.recorded)
  }

  lemma RecordingGrows(w: World, p: Phase, recorded: set<nat>, more: set<nat>)
    requires PhaseCovered(w, p, recorded) && recorded <= more
    ensures PhaseCovered(w, p, more)
  {
  }

  lemma FinishedIsRecorded(w: World, p: Phase, recorded: set<nat>)
    requires PhaseCovered(w, p, recorded) && Finished(p) && HasItems(p.exchange) && p.r.whole
    ensures p.document <= recorded
  {
    forall h <- p.document ensures h in recorded {
      assert h in Hashes(p.exchange.result.items);
    }
  }

  lemma RecordCovers(w: World, s: State, n: nat, fate: CommitFate)
    requires Evidenced(w, s) && n < |s.workers| && Finished(s.workers[n])
    ensures Evidenced(w, RecordOutcome(s, n, fate))
  {
    var p := s.workers[n];
    assert PhaseCovered(w, p, s.recorded);
    if p.exchange.Exchanged? {
      if p.exchange.result.notModified {
        NotModifiedHidesNothing(w, p.sent, p.exchange.result, p.document, s.recorded);
      } else if p.r.whole {
        FinishedIsRecorded(w, p, s.recorded);
        RefreshCovers(w, p.sent, p.exchange.result, p.document, s.recorded);
      }
    }
  }

  lemma WriteCovers(w: World, s: State, n: nat, fate: CommitFate)
    requires Evidenced(w, s) && n < |s.workers| && s.workers[n].Answered? && !Finished(s.workers[n])
    ensures Evidenced(w, WriteItem(s, n, fate))
  {
    var s' := WriteItem(s, n, fate);
    forall k | 0 <= k < |s'.workers| ensures PhaseCovered(w, s'.workers[k], s'.recorded) {
      RecordingGrows(w, s.workers[k], s.recorded, s'.recorded);
    }
  }

  lemma StepEvidenced(w: World, gate: int, s: State, a: Action)
    requires Evidenced(w, s) && HonestStep(w, s, a)
    ensures Evidenced(w, Next(gate, s, a)) && s.recorded <= Next(gate, s, a).recorded
  {
    match a {
      case Write(n, fate) =>
        if n < |s.workers| && s.workers[n].Answered? && !Finished(s.workers[n]) { WriteCovers(w, s, n, fate); }
      case Record(n, fate) =>
        if n < |s.workers| && Finished(s.workers[n]) { RecordCovers(w, s, n, fate); }
      case _ =>
    }
  }

  /** Whatever the interleaving, wherever a replica stops, and with or without the lock:
      the tokens on the row vouch only for items that are recorded. */
  lemma {:induction false} ValidatorsNeverAhead(w: World, gate: int, s: State, actions: seq<Action>)
    requires Evidenced(w, s) && HonestRun(w, gate, s, actions)
    ensures Evidenced(w, Run(gate, s, actions)) && s.recorded <= Run(gate, s, actions).recorded
  {
    hide Evidenced, Next, HonestStep;
    if |actions| > 0 {
      var earlier := actions[..|actions| - 1];
      assert forall n :: 0 <= n < |earlier| ==> earlier[..n] == actions[..n] && earlier[n] == actions[n];
      ValidatorsNeverAhead(w, gate, s, earlier);
      StepEvidenced(w, gate, Run(gate, s, earlier), actions[|actions| - 1]);
    }
  }

  /** So a 304 from an honest source never hides an item that is not recorded. */
  lemma NothingHidden(w: World, gate: int, s: State, actions: seq<Action>, n: nat, exchange: Exchange)
    requires Evidenced(w, s) && HonestRun(w, gate, s, actions + [Answer(n, exchange)])
    requires exchange.Exchanged? && exchange.result.notModified
    requires n < |Run(gate, s, actions).workers| && Run(gate, s, actions).workers[n].Asking?
    ensures Run(gate, s, actions).document <= Run(gate, s, actions).recorded
  {
    var all := actions + [Answer(n, exchange)];
    assert all[..|actions|] == actions && all[|actions|] == Answer(n, exchange);
    assert HonestStep(w, Run(gate, s, all[..|actions|]), all[|actions|]);
    forall k | 0 <= k < |actions| ensures HonestStep(w, Run(gate, s, actions[..k]), actions[k]) {
      assert all[..k] == actions[..k] && all[k] == actions[k];
      assert HonestStep(w, Run(gate, s, all[..k]), all[k]);
    }
    ValidatorsNeverAhead(w, gate, s, actions);
    var now := Run(gate, s, actions);
    assert PhaseCovered(w, now.workers[n], now.recorded);
    NotModifiedHidesNothing(w, now.workers[n].sent, exchange.result, now.document, now.recorded);
  }

  // ---- the pace ----

  /** A request may start: the gate has passed since the last recorded poll, and what the
      source asked for has been waited out. */
  predicate InTime(s: Source, at: int, gate: int) {
    && (s.lastPolled.Some? ==> s.lastPolled.value + gate < at)
    && (s.notBefore.Some? ==> s.notBefore.value <= at)
  }

  /** Consecutive recorded polls keep the pace. */
  predicate Paced(gate: int, earlier: Poll, later: Poll) {
    && earlier.recorded + gate < later.started <= later.recorded
    && (earlier.asked > 0 ==> earlier.recorded + earlier.asked <= later.started)
  }

  /** A replica inside a cycle holds the lock, and what it listed or asked was in time. */
  ghost predicate PhaseInPace(gate: int, s: State, p: Phase) {
    match p
    case Listed(at, _) => at <= s.now && InTime(s.source, at, gate)
    case Asking(started, _) => started <= s.now && InTime(s.source, started, gate)
    case Answered(started, _, _, _, _, _) => started <= s.now && InTime(s.source, started, gate)
    case _ => true
  }

  /** The row says when the last recorded poll was, and the recorded polls are paced. */
  ghost predicate HistoryInPace(gate: int, s: State) {
    && (|s.polls| > 0 ==>
          var last := s.polls[|s.polls| - 1];
          && s.source.lastPolled == Some(last.recorded) && last.recorded <= s.now
          && s.source.notBefore == if last.asked > 0 then Some(last.recorded + last.asked) else None)
    && (forall i :: 0 < i < |s.polls| ==> Paced(gate, s.polls[i - 1], s.polls[i]))
  }

  ghost predicate InPace(gate: int, s: State) {
    && (forall w :: 0 <= w < |s.workers| && !s.workers[w].Idle? ==> s.lock == Some(w))
    && (forall w :: 0 <= w < |s.workers| ==> PhaseInPace(gate, s, s.workers[w]))
    && HistoryInPace(gate, s)
  }

  lemma RecordInPace(gate: int, s: State, w: nat, fate: CommitFate)
    requires InPace(gate, s) && w < |s.workers| && s.workers[w].Answered?
    ensures InPace(gate, RecordOutcome(s, w, fate))
  {
    var s' := RecordOutcome(s, w, fate);
    assert PhaseInPace(gate, s, s.workers[w]);
    assert forall v :: 0 <= v < |s.workers| && v != w ==> s.workers[v].Idle?;
    hide OutcomeOf;
    if !fate.Refused? {
      assert s'.polls[..|s.polls|] == s.polls;
      if |s.polls| > 0 { assert Paced(gate, s.polls[|s.polls| - 1], s'.polls[|s.polls|]); }
    }
  }

  /** A step that leaves the row and the history alone. */
  lemma OthersInPace(gate: int, s: State, s': State)
    requires InPace(gate, s) && s'.source == s.source && s'.polls == s.polls && s'.now >= s.now && |s'.workers| == |s.workers|
    requires forall w :: 0 <= w < |s.workers| ==> s'.workers[w] == s.workers[w] || PhaseInPace(gate, s', s'.workers[w])
    requires forall w :: 0 <= w < |s.workers| && !s'.workers[w].Idle? ==> s'.lock == Some(w)
    ensures InPace(gate, s')
  {
  }

  lemma StepInPace(gate: int, s: State, a: Action)
    requires InPace(gate, s) && !a.LoseLock?
    ensures InPace(gate, Next(gate, s, a))
  {
    hide RecordOutcome, HistoryInPace;
    var s' := Next(gate, s, a);
    if a.Record? {
      if a.worker < |s.workers| && Finished(s.workers[a.worker]) { RecordInPace(gate, s, a.worker, a.fate); }
    } else if a.Tick? || a.Publish? {
      OthersInPace(gate, s, s');
    } else if a.worker < |s.workers| {
      assert PhaseInPace(gate, s, s.workers[a.worker]);
      OthersInPace(gate, s, s');
    }
  }

  ghost predicate Resting(s: State) {
    s.lock.None? && s.polls == [] && forall w :: 0 <= w < |s.workers| ==> s.workers[w].Idle?
  }

  lemma {:induction false} RunInPace(gate: int, s: State, actions: seq<Action>)
    requires Resting(s) && forall a <- actions :: !a.LoseLock?
    ensures InPace(gate, Run(gate, s, actions))
  {
    hide Next;
    if |actions| > 0 {
      var earlier := actions[..|actions| - 1];
      RunInPace(gate, s, earlier);
      StepInPace(gate, Run(gate, s, earlier), actions[|actions| - 1]);
    }
  }

  /** Over every interleaving under the lock, any two recorded polls of a source are more
      than the gate apart, start to start as well as record to record, and a poll starts
      only once what the last one was asked to wait has passed. */
  lemma PollsArePaced(gate: nat, s: State, actions: seq<Action>, i: nat, j: nat)
    requires Resting(s) && forall a <- actions :: !a.LoseLock?
    requires i < j < |Run(gate, s, actions).polls|
    ensures var earlier, later := Run(gate, s, actions).polls[i], Run(gate, s, actions).polls[j];
      && earlier.recorded + gate < later.started && earlier.started + gate < later.started
      && earlier.recorded + gate < later.recorded
      && (j == i + 1 ==> Paced(gate, earlier, later))
  {
    hide Run;
    RunInPace(gate, s, actions);
    assert forall p <- Run(gate, s, actions).polls :: p.started <= p.recorded by { StartedBefore(gate, s, actions); }
    Spread(gate, Run(gate, s, actions).polls, i, j);
  }

  /** And so is every request, whether its own outcome comes to be recorded or not: it has
      started more than the gate after the last recorded poll, and once what that one was
      asked to wait had passed. */
  lemma RequestsArePaced(gate: nat, s: State, actions: seq<Action>, w: nat)
    requires Resting(s) && forall a <- actions :: !a.LoseLock?
    requires var now := Run(gate, s, actions); w < |now.workers| && (now.workers[w].Asking? || now.workers[w].Answered?)
    ensures var now := Run(gate, s, actions);
      |now.polls| > 0 ==>
        var last, started := now.polls[|now.polls| - 1], now.workers[w].started;
        && last.recorded + gate < started <= now.now
        && (last.asked > 0 ==> last.recorded + last.asked <= started)
  {
    hide Run;
    RunInPace(gate, s, actions);
    var now := Run(gate, s, actions);
    assert PhaseInPace(gate, now, now.workers[w]);
  }

  lemma {:induction false} Spread(gate: nat, polls: seq<Poll>, i: nat, j: nat)
    requires i < j < |polls| && forall k :: 0 < k < |polls| ==> Paced(gate, polls[k - 1], polls[k])
    requires polls[i].started <= polls[i].recorded
    ensures polls[i].recorded + gate < polls[j].started <= polls[j].recorded
    decreases j
  {
    assert Paced(gate, polls[j - 1], polls[j]);
    if i < j - 1 { Spread(gate, polls, i, j - 1); }
  }

  ghost predicate Begun(s: State) {
    && (forall p <- s.polls :: p.started <= p.recorded)
    && forall w :: 0 <= w < |s.workers| ==>
         && (s.workers[w].Asking? ==> s.workers[w].started <= s.now)
         && (s.workers[w].Answered? ==> s.workers[w].started <= s.now)
  }

  lemma {:induction false} StartedBefore(gate: int, s: State, actions: seq<Action>)
    requires Resting(s)
    ensures Begun(Run(gate, s, actions))
  {
    hide OutcomeOf, Due;
    if |actions| > 0 { StartedBefore(gate, s, actions[..|actions| - 1]); }
  }

  /** A deferral is never more than a day. */
  lemma DeferredAtMostADay(gate: int, s: State, w: nat, fate: CommitFate)
    requires w < |s.workers| && s.workers[w].Answered? && !fate.Refused?
    requires s.workers[w].exchange.Failure? ==> 0 <= s.workers[w].exchange.retryAfter <= MaxAsk
    ensures var at := RecordOutcome(s, w, fate).source.notBefore;
      at.Some? ==> s.now < at.value <= s.now + MaxAsk
  {
  }

  // ---- and polls go through ----

  /** What a written outcome leaves on the row, in the words of the answer. */
  ghost predicate Writes(before: Source, after: Source, now: int, exchange: Exchange, sent: Validators, whole: bool) {
    && after.lastPolled == Some(now) && after.active == before.active
    && (after.failed <==> exchange.Failure? || (HasItems(exchange) && !whole))
    && after.notBefore == (if exchange.Failure? && exchange.retryAfter > 0 then Some(now + exchange.retryAfter) else None)
    && after.stored.etag == (if after.failed || exchange.result.tokens.etag == "" then sent.etag else exchange.result.tokens.etag)
    && after.stored.lastModified ==
         (if after.failed || exchange.result.tokens.lastModified == "" then sent.lastModified else exchange.result.tokens.lastModified)
  }

  /** The step that records: an outcome that is written leaves the row saying when the
      source was polled, whether that failed, and with what to ask next; the poll is
      history, and the replica is done. */
  lemma RecordGoesThrough(gate: int, s: State, w: nat, fate: CommitFate)
    requires w < |s.workers| && Finished(s.workers[w]) && !fate.Refused?
    ensures var p, s' := s.workers[w], Next(gate, s, Action.Record(w, fate));
      && s'.workers == s.workers[w := Done] && s'.recorded == s.recorded && s'.now == s.now && s'.lock == s.lock
      && s'.polls == s.polls + [Poll(p.started, s.now, if p.exchange.Failure? then p.exchange.retryAfter else 0)]
      && Writes(s.source, s'.source, s.now, p.exchange, p.sent, p.r.whole)
  {
  }

  /** Every item of the document on record, the tokens refreshed, and no failure. */
  ghost predicate Polls(s: State, t: State, result: Result) {
    && (forall k :: 0 <= k < |result.items| && result.items[k].usable && !result.notModified ==> result.items[k].hash in t.recorded)
    && s.recorded <= t.recorded && !t.source.failed && t.source.lastPolled == Some(t.now)
    && t.source.stored.etag == (if result.tokens.etag == "" then s.source.stored.etag else result.tokens.etag)
    && t.source.stored.lastModified == (if result.tokens.lastModified == "" then s.source.stored.lastModified else result.tokens.lastModified)
    && |t.polls| == |s.polls| + 1
  }

  /** The items a replica still has to write, all of them written. */
  lemma {:induction false} WritesOut(gate: int, s: State) returns (actions: seq<Action>, t: State)
    requires |s.workers| == 1 && s.workers[0].Answered? && s.workers[0].exchange.Exchanged? && s.workers[0].r.whole
    requires HasItems(s.workers[0].exchange) && s.workers[0].done <= |s.workers[0].exchange.result.items|
    ensures Run(gate, s, actions) == t && t == s.(recorded := t.recorded, workers := t.workers) && s.recorded <= t.recorded
    ensures |t.workers| == 1 && t.workers[0].Answered? && t.workers[0] == s.workers[0].(done := |s.workers[0].exchange.result.items|, r := t.workers[0].r)
    ensures t.workers[0].r.whole
    ensures var items := s.workers[0].exchange.result.items;
      forall k :: s.workers[0].done <= k < |items| && items[k].usable ==> items[k].hash in t.recorded
    decreases |s.workers[0].exchange.result.items| - s.workers[0].done
  {
    var p := s.workers[0];
    if p.done == |p.exchange.result.items| {
      actions, t := [], s;
    } else {
      var next := WriteItem(s, 0, Landed);
      assert Next(gate, s, Write(0, Landed)) == next;
      Runs.Follows(Step(gate), [s, next], [Write(0, Landed)]);
      hide Next;
      var rest;
      rest, t := WritesOut(gate, next);
      Runs.Appends(Step(gate), s, [Write(0, Landed)], rest);
      actions := [Write(0, Landed)] + rest;
    }
  }

  /** A due source that answers is polled: some run of one replica records all its items,
      refreshes its tokens, and leaves no failure on its row. */
  lemma {:induction false} DueSourceIsPolled(gate: int, s: State, result: Result) returns (actions: seq<Action>)
    requires Resting(s) && s.workers == [Idle] && Due(s.source, s.now, gate)
    ensures Polls(s, Run(gate, s, actions), result)
  {
    var asking, asked := Asks(gate, s, Exchanged(result));
    var writing, written := [], asked;
    if !result.notModified { writing, written := WritesOut(gate, asked); }
    assert Run(gate, asked, writing) == written;
    assert Finished(written.workers[0]);
    RecordGoesThrough(gate, written, 0, Landed);
    var t := Next(gate, written, Action.Record(0, Landed));
    Runs.Follows(Step(gate), [written, t], [Action.Record(0, Landed)]);
    Runs.Appends(Step(gate), s, asking, writing);
    Runs.Appends(Step(gate), s, asking + writing, [Action.Record(0, Landed)]);
    actions := asking + writing + [Action.Record(0, Landed)];
    hide Next, Runs.Fold;
    assert Run(gate, s, actions) == t;
  }

  lemma {:induction false} Asks(gate: int, s: State, exchange: Exchange) returns (actions: seq<Action>, t: State)
    requires Resting(s) && s.workers == [Idle] && Due(s.source, s.now, gate)
    ensures t == s.(workers := [Phase.Answered(s.now, s.source.stored, exchange, s.document, 0, Recording(0, 0, true))], lock := Some(0))
    ensures Run(gate, s, actions) == t
  {
    hide Due;
    t := s.(workers := [Phase.Answered(s.now, s.source.stored, exchange, s.document, 0, Recording(0, 0, true))], lock := Some(0));
    actions := [TakeLock(0), List(0), Ask(0), Answer(0, exchange)];
    var path := [
      s,
      s.(workers := [Holding], lock := Some(0)),
      s.(workers := [Listed(s.now, s.source.stored)], lock := Some(0)),
      s.(workers := [Asking(s.now, s.source.stored)], lock := Some(0)),
      t];
    assert forall i :: 0 <= i < |actions| ==> path[i + 1] == Next(gate, path[i], actions[i]);
    Runs.Follows(Step(gate), path, actions);
  }

  // ---- what the lock and the outcome write are for ----

  /** With the lock's session lost in mid-cycle, a second replica lists and asks the
      source while the first is about to: both requests start at the same instant. */
  lemma {:induction false} LostLockBreaksPace(gate: nat, s: State) returns (actions: seq<Action>)
    requires Resting(s) && s.workers == [Idle, Idle] && Due(s.source, s.now, gate)
    ensures var asking := Asking(s.now, s.source.stored);
      Run(gate, s, actions) == s.(workers := [asking, asking], lock := Some(1))
  {
    hide Due;
    var listed, asking := Listed(s.now, s.source.stored), Asking(s.now, s.source.stored);
    actions := [TakeLock(0), List(0), LoseLock(0), TakeLock(1), List(1), Ask(0), Ask(1)];
    var path := [
      s,
      s.(workers := [Holding, Idle], lock := Some(0)),
      s.(workers := [listed, Idle], lock := Some(0)),
      s.(workers := [listed, Idle]),
      s.(workers := [listed, Holding], lock := Some(1)),
      s.(workers := [listed, listed], lock := Some(1)),
      s.(workers := [asking, listed], lock := Some(1)),
      s.(workers := [asking, asking], lock := Some(1))];
    assert forall i :: 0 <= i < |actions| ==> path[i + 1] == Next(gate, path[i], actions[i]);
    Runs.Follows(Step(gate), path, actions);
  }

  /** An outcome that is not written leaves the row as it was, and so the source as due:
      it has just been asked, under the lock, and may be asked again at once. */
  lemma {:induction false} LostOutcomeBreaksPace(gate: nat, s: State, exchange: Exchange) returns (actions: seq<Action>)
    requires Resting(s) && s.workers == [Idle] && Due(s.source, s.now, gate) && exchange.Failure?
    ensures forall a <- actions :: !a.LoseLock?
    ensures exists n :: 0 <= n < |actions| && actions[n] == Answer(0, exchange)
    ensures Run(gate, s, actions) == s
  {
    hide Due;
    var stored := s.source.stored;
    var answered := Phase.Answered(s.now, stored, exchange, s.document, 0, Recording(0, 0, true));
    actions := [TakeLock(0), List(0), Ask(0), Answer(0, exchange), Action.Record(0, CommitFate.Refused), Leave(0)];
    assert actions[3] == Answer(0, exchange);
    var path := [
      s,
      s.(workers := [Holding], lock := Some(0)),
      s.(workers := [Listed(s.now, stored)], lock := Some(0)),
      s.(workers := [Asking(s.now, stored)], lock := Some(0)),
      s.(workers := [answered], lock := Some(0)),
      s.(workers := [Done], lock := Some(0)),
      s];
    assert forall i :: 0 <= i < |actions| ==> path[i + 1] == Next(gate, path[i], actions[i]);
    Runs.Follows(Step(gate), path, actions);
  }

  /** A replica's own next cycle, started after any wait the jitter allows, finds a source
      it polled due again, unless it was asked to wait longer; a clock that has not moved
      at all between the outcome and the end of the cycle is the one exception. */
  lemma NextCycleFindsDue(s: Source, recorded: int, ended: int, interval: nat, r: real)
    requires s.active && s.lastPolled == Some(recorded) && s.notBefore.None?
    requires recorded <= ended && 0.0 <= r < 1.0
    ensures var next := ended + Jittered(interval, r);
      Due(s, next, Gate(interval)) <==> recorded < ended || Jittered(interval, r) > Gate(interval)
  {
    NeverEarlierThanGate(interval, r);
    hide Jittered, Gate;
  }
}

/** Replicas issuing clicks that one half of the rule counts: what a window can hold. */
module ClickWindow {
  import opened Options
  import opened Clicks
  import Runs

  /** One issue in flight: its clock has been read, or its count has been found to allow
      it and its click is still to be recorded. */
  datatype Stage = Resting | Begun(at: int) | Allowed

  datatype State = State(now: int, instants: seq<int>, stages: seq<Stage>)

  datatype Action =
    | Tick(elapsed: nat)
    | Begin(worker: nat)
    | Count(worker: nat)
    | Record(worker: nat)
    | GiveUp(worker: nat)

  function Next(allowed: int, s: State, a: Action): State {
    match a
    case Tick(elapsed) => s.(now := s.now + elapsed)
    case Begin(w) => if w < |s.stages| && s.stages[w].Resting? then s.(stages := s.stages[w := Begun(s.now)]) else s
    case Count(w) =>
      if w < |s.stages| && s.stages[w].Begun?
      then s.(stages := s.stages[w := if HalfVerdict(Member, allowed, s.instants, s.stages[w].at).None? then Allowed else Resting]) else s
    case Record(w) =>
      if w < |s.stages| && s.stages[w].Allowed? then s.(stages := s.stages[w := Resting], instants := s.instants + [s.now]) else s
    case GiveUp(w) => if w < |s.stages| then s.(stages := s.stages[w := Resting]) else s
  }

  function Step(allowed: int): (State, Action) -> State { (s, a) => Next(allowed, s, a) }

  function Run(allowed: int, s: State, actions: seq<Action>): State { Runs.Fold(Step(allowed), s, actions) }

  /** How many fall in the window that opens after `from` and closes at its length. */
  function InWindow(instants: seq<int>, from: int): (n: nat) {
    if |instants| == 0 then 0
    else InWindow(instants[..|instants| - 1], from) + if from < instants[|instants| - 1] <= from + Window then 1 else 0
  }

  function InFlight(stages: seq<Stage>): nat {
    if |stages| == 0 then 0 else InFlight(stages[..|stages| - 1]) + if stages[|stages| - 1].Allowed? then 1 else 0
  }

  lemma {:induction false} FlightAfter(stages: seq<Stage>, w: nat, stage: Stage)
    requires w < |stages|
    ensures InFlight(stages[w := stage]) + (if stages[w].Allowed? then 1 else 0) == InFlight(stages) + (if stage.Allowed? then 1 else 0)
  {
    var last := |stages| - 1;
    if w == last {
      assert stages[w := stage][..last] == stages[..last];
    } else {
      assert stages[w := stage][..last] == stages[..last][w := stage];
      FlightAfter(stages[..last], w, stage);
    }
  }

  lemma {:induction false} FlightAtMostAll(stages: seq<Stage>)
    ensures InFlight(stages) <= |stages|
  {
    if |stages| > 0 { FlightAtMostAll(stages[..|stages| - 1]); }
  }

  lemma {:induction false} WindowWithinCount(instants: seq<int>, from: int, since: int)
    requires since <= from
    ensures InWindow(instants, from) <= CountAfter(instants, since)
  {
    if |instants| > 0 { WindowWithinCount(instants[..|instants| - 1], from, since); }
  }

  /** Any window, with the issues that may still land in it, is within the bound. */
  ghost predicate Bounded(allowed: int, s: State) {
    && (forall from: int :: InWindow(s.instants, from) + (if s.now <= from + Window then InFlight(s.stages) else 0) <= allowed + |s.stages| - 1)
    && (forall w :: 0 <= w < |s.stages| && s.stages[w].Begun? ==> s.stages[w].at <= s.now)
  }

  lemma StepBounded(allowed: int, s: State, a: Action)
    requires allowed > 0 && |s.stages| > 0 && Bounded(allowed, s)
    ensures Bounded(allowed, Next(allowed, s, a)) && |Next(allowed, s, a).stages| == |s.stages|
  {
    match a {
      case Tick(_) =>
      case Begin(w) => if w < |s.stages| { FlightAfter(s.stages, w, Begun(s.now)); }
      case GiveUp(w) => if w < |s.stages| { FlightAfter(s.stages, w, Resting); }
      case Record(w) =>
        if w < |s.stages| && s.stages[w].Allowed? {
          FlightAfter(s.stages, w, Resting);
          assert (s.instants + [s.now])[..|s.instants|] == s.instants;
        }
      case Count(w) =>
        if w < |s.stages| && s.stages[w].Begun? { CountBounded(allowed, s, w); }
    }
  }

  /** The count that lets an issue go on bounds every window its click can land in. */
  lemma CountBounded(allowed: int, s: State, w: nat)
    requires allowed > 0 && Bounded(allowed, s) && w < |s.stages| && s.stages[w].Begun?
    ensures Bounded(allowed, Next(allowed, s, Count(w)))
  {
    hide InWindow, InFlight, OldestAfter;
    var s' := Next(allowed, s, Count(w));
    FlightAfter(s.stages, w, s'.stages[w]);
    FlightAtMostAll(s'.stages);
    if s'.stages[w].Allowed? {
      forall from: int | s.now <= from + Window ensures InWindow(s.instants, from) <= allowed - 1 {
        WindowWithinCount(s.instants, from, s.stages[w].at - Window);
      }
    }
  }

  ghost predicate Untouched(s: State) {
    s.instants == [] && forall w :: 0 <= w < |s.stages| ==> s.stages[w].Resting?
  }

  lemma {:induction false} NoneInFlight(stages: seq<Stage>)
    requires forall w :: 0 <= w < |stages| ==> stages[w].Resting?
    ensures InFlight(stages) == 0
  {
    if |stages| > 0 { NoneInFlight(stages[..|stages| - 1]); }
  }

  /** The click window. Over every interleaving of J issues at a time, no window of the
      rule's length holds more than the allowance and J - 1; one at a time, none holds
      more than the allowance. */
  lemma {:induction false} WindowHolds(allowed: int, s: State, actions: seq<Action>)
    requires allowed > 0 && |s.stages| > 0 && Untouched(s)
    ensures Bounded(allowed, Run(allowed, s, actions)) && |Run(allowed, s, actions).stages| == |s.stages|
    ensures forall from: int :: InWindow(Run(allowed, s, actions).instants, from) <= allowed + |s.stages| - 1
  {
    hide Next;
    if |actions| == 0 {
      NoneInFlight(s.stages);
    } else {
      WindowHolds(allowed, s, actions[..|actions| - 1]);
      StepBounded(allowed, Run(allowed, s, actions[..|actions| - 1]), actions[|actions| - 1]);
    }
  }

  // ---- the bound is reached ----

  function AllAt(n: nat, at: int): (instants: seq<int>)
    ensures |instants| == n && forall i :: 0 <= i < n ==> instants[i] == at
  {
    seq(n, i => at)
  }

  lemma {:induction false} CountAll(n: nat, at: int)
    ensures CountAfter(AllAt(n, at), at - Window) == n && InWindow(AllAt(n, at), at - 1) == n
  {
    if n > 0 {
      assert AllAt(n, at)[..n - 1] == AllAt(n - 1, at);
      CountAll(n - 1, at);
    }
  }

  /** One replica begins, is allowed, and records. */
  lemma OneClick(allowed: int, s: State)
    requires |s.stages| > 0 && s.stages[0].Resting? && CountAfter(s.instants, s.now - Window) < allowed
    ensures Run(allowed, s, [Begin(0), Count(0), Record(0)]) == s.(instants := s.instants + [s.now])
  {
    var begun, counted := s.(stages := s.stages[0 := Begun(s.now)]), s.(stages := s.stages[0 := Allowed]);
    assert begun.stages[0 := Allowed] == counted.stages && counted.stages[0 := Resting] == s.stages;
    Runs.Follows(Step(allowed), [s, begun, counted, s.(instants := s.instants + [s.now])], [Begin(0), Count(0), Record(0)]);
  }

  /** One replica makes n clicks, one after another. */
  lemma {:induction false} Clicking(allowed: int, s: State, n: nat) returns (actions: seq<Action>)
    requires s.instants == [] && |s.stages| > 0 && s.stages[0].Resting? && n < allowed
    ensures Run(allowed, s, actions) == s.(instants := AllAt(n, s.now))
  {
    if n == 0 {
      actions := [];
    } else {
      var before := Clicking(allowed, s, n - 1);
      var t := s.(instants := AllAt(n - 1, s.now));
      CountAll(n - 1, s.now);
      OneClick(allowed, t);
      Runs.Appends(Step(allowed), s, before, [Begin(0), Count(0), Record(0)]);
      assert AllAt(n - 1, s.now) + [s.now] == AllAt(n, s.now);
      actions := before + [Begin(0), Count(0), Record(0)];
    }
  }

  /** Replicas w and up are allowed, one after another, and none records yet. */
  lemma {:induction false} Crowding(allowed: int, s: State, w: nat) returns (actions: seq<Action>)
    requires w <= |s.stages| && 0 < allowed && s.instants == AllAt(allowed - 1, s.now)
    requires forall v :: w <= v < |s.stages| ==> s.stages[v].Resting?
    ensures var t := Run(allowed, s, actions);
      && t == s.(stages := t.stages) && |t.stages| == |s.stages|
      && (forall v :: 0 <= v < w ==> t.stages[v] == s.stages[v]) && (forall v :: w <= v < |s.stages| ==> t.stages[v].Allowed?)
    decreases |s.stages| - w
  {
    if w == |s.stages| {
      actions := [];
    } else {
      CountAll(allowed - 1, s.now);
      var begun, counted := s.(stages := s.stages[w := Begun(s.now)]), s.(stages := s.stages[w := Allowed]);
      assert begun.stages[w := Allowed] == counted.stages;
      Runs.Follows(Step(allowed), [s, begun, counted], [Begin(w), Count(w)]);
      var rest := Crowding(allowed, counted, w + 1);
      Runs.Appends(Step(allowed), s, [Begin(w), Count(w)], rest);
      actions := [Begin(w), Count(w)] + rest;
    }
  }

  /** And then they all record. */
  lemma {:induction false} Recording(allowed: int, s: State, w: nat, n: nat) returns (actions: seq<Action>)
    requires w <= |s.stages| && s.instants == AllAt(n, s.now)
    requires forall v :: w <= v < |s.stages| ==> s.stages[v].Allowed?
    ensures Run(allowed, s, actions).instants == AllAt(n + |s.stages| - w, s.now)
    decreases |s.stages| - w
  {
    if w == |s.stages| {
      actions := [];
    } else {
      var recorded := s.(stages := s.stages[w := Resting], instants := s.instants + [s.now]);
      Runs.Follows(Step(allowed), [s, recorded], [Record(w)]);
      assert recorded.instants == AllAt(n + 1, s.now);
      var rest := Recording(allowed, recorded, w + 1, n + 1);
      Runs.Appends(Step(allowed), s, [Record(w)], rest);
      actions := [Record(w)] + rest;
    }
  }

  /** The bound cannot be bettered: for any allowance and any J, some run puts exactly the
      allowance and J - 1 clicks in one window. */
  lemma {:induction false} BoundIsReached(allowed: int, s: State) returns (actions: seq<Action>)
    requires allowed > 0 && |s.stages| > 0 && Untouched(s)
    ensures InWindow(Run(allowed, s, actions).instants, s.now - 1) == allowed + |s.stages| - 1
  {
    hide Runs.Fold, Next, InWindow;
    var clicking := Clicking(allowed, s, allowed - 1);
    var t := s.(instants := AllAt(allowed - 1, s.now));
    var crowding := Crowding(allowed, t, 0);
    var u := Run(allowed, t, crowding);
    var recording := Recording(allowed, u, 0, allowed - 1);
    Runs.Appends(Step(allowed), s, clicking, crowding);
    Runs.Appends(Step(allowed), s, clicking + crowding, recording);
    CountAll(allowed - 1 + |s.stages|, s.now);
    actions := clicking + crowding + recording;
  }

  // ---- a Retry-After that is too early ----

  /** One click at an instant, and n more a moment later. */
  function Spread(first: int, n: nat): (instants: seq<int>)
    ensures |instants| == n + 1
  {
    [first] + AllAt(n, first + 1)
  }

  lemma {:induction false} CountSpread(first: int, n: nat, since: int)
    requires since < first + 1
    ensures CountAfter(Spread(first, n), since) == n + if since < first then 1 else 0
  {
    if n == 0 {
      assert Spread(first, 0) == [first];
      assert [first][..0] == [];
    } else {
      assert AllAt(n, first + 1)[..n - 1] == AllAt(n - 1, first + 1);
      assert Spread(first, n)[..n] == Spread(first, n - 1);
      CountSpread(first, n - 1, since);
    }
  }

  /** One replica clicks on, a moment after the first click, until n more are recorded. */
  lemma {:induction false} ClickingOn(allowed: int, s: State, first: int, n: nat) returns (actions: seq<Action>)
    requires s.now == first + 1 && s.instants == Spread(first, 0) && |s.stages| > 0 && s.stages[0].Resting? && n < allowed
    ensures Run(allowed, s, actions) == s.(instants := Spread(first, n))
  {
    if n == 0 {
      actions := [];
    } else {
      var before := ClickingOn(allowed, s, first, n - 1);
      var t := s.(instants := Spread(first, n - 1));
      CountSpread(first, n - 1, s.now - Window);
      OneClick(allowed, t);
      Runs.Appends(Step(allowed), s, before, [Begin(0), Count(0), Record(0)]);
      assert Spread(first, n - 1) + [s.now] == Spread(first, n);
      actions := before + [Begin(0), Count(0), Record(0)];
    }
  }

  /** With two issues at a time, a refusal can promise too early a time. One replica is
      allowed and waits; another makes the first click and, a moment later, the rest of the
      allowance; then the first records too. Whoever is refused now and comes back exactly
      when told to is refused again. */
  lemma {:induction false} RetryAfterIsTooEarly(allowed: int, s: State) returns (actions: seq<Action>)
    requires allowed > 0 && |s.stages| >= 2 && Untouched(s)
    ensures var t := Run(allowed, s, actions);
      && HalfVerdict(Member, allowed, t.instants, t.now).Some?
      && var wait := HalfVerdict(Member, allowed, t.instants, t.now).value.retryAfter;
         HalfVerdict(Member, allowed, t.instants, t.now + wait).Some?
  {
    hide HalfVerdict, Verdict, CountAfter, OldestAfter, Next, Spread, Runs.Fold;
    var crowding, waiting := OneWaits(allowed, s);
    var first, clicked := OneClicksAndWaits(allowed, waiting);
    var rest, over := TheRest(allowed, clicked, s.now);
    Runs.Appends(Step(allowed), s, crowding, first);
    Runs.Appends(Step(allowed), s, crowding + first, rest);
    actions := crowding + first + rest;
    assert Run(allowed, s, actions) == over;
    ToldTooEarly(allowed, s.now, over.instants);
  }

  lemma {:induction false} OneClicksAndWaits(allowed: int, s: State) returns (actions: seq<Action>, t: State)
    requires allowed > 0 && |s.stages| >= 2 && s.stages[0].Resting? && s.instants == []
    ensures t == s.(instants := Spread(s.now, 0), now := s.now + 1) && Run(allowed, s, actions) == t
  {
    var clicked := s.(instants := [s.now]);
    OneClick(allowed, s);
    t := s.(instants := Spread(s.now, 0), now := s.now + 1);
    assert Spread(s.now, 0) == [s.now] && s.instants + [s.now] == [s.now];
    Runs.Follows(Step(allowed), [clicked, t], [Tick(1)]);
    Runs.Appends(Step(allowed), s, [Begin(0), Count(0), Record(0)], [Tick(1)]);
    actions := [Begin(0), Count(0), Record(0)] + [Tick(1)];
  }

  lemma {:induction false} TheRest(allowed: int, s: State, first: int) returns (actions: seq<Action>, t: State)
    requires allowed > 0 && |s.stages| >= 2 && s.stages[0].Resting? && s.stages[1].Allowed?
    requires s.now == first + 1 && s.instants == Spread(first, 0)
    ensures t == s.(instants := Spread(first, allowed), stages := s.stages[1 := Resting]) && Run(allowed, s, actions) == t
  {
    var clicking := ClickingOn(allowed, s, first, allowed - 1);
    var full := s.(instants := Spread(first, allowed - 1));
    t := s.(instants := Spread(first, allowed), stages := s.stages[1 := Resting]);
    assert full.instants + [full.now] == Spread(first, allowed);
    Runs.Follows(Step(allowed), [full, t], [Record(1)]);
    Runs.Appends(Step(allowed), s, clicking, [Record(1)]);
    actions := clicking + [Record(1)];
  }

  lemma {:induction false} OneWaits(allowed: int, s: State) returns (actions: seq<Action>, t: State)
    requires allowed > 0 && |s.stages| >= 2 && Untouched(s)
    ensures t == s.(stages := s.stages[1 := Allowed]) && Run(allowed, s, actions) == t && t.stages[0].Resting?
    ensures CountAfter(t.instants, t.now - Window) == 0
  {
    t := s.(stages := s.stages[1 := Allowed]);
    var begun := s.(stages := s.stages[1 := Begun(s.now)]);
    assert begun.stages[1 := Allowed] == t.stages;
    actions := [Begin(1), Count(1)];
    Runs.Follows(Step(allowed), [s, begun, t], actions);
  }

  lemma ToldTooEarly(allowed: int, first: int, instants: seq<int>)
    requires allowed > 0 && instants == Spread(first, allowed)
    ensures HalfVerdict(Member, allowed, instants, first + 1).Some?
    ensures HalfVerdict(Member, allowed, instants, first + 1).value.retryAfter == Window - 1
    ensures HalfVerdict(Member, allowed, instants, first + Window).Some?
  {
    CountSpread(first, allowed, first + 1 - Window);
    CountSpread(first, allowed, first);
    assert instants[0] == first && first in instants;
    assert forall x <- instants :: x >= first;
    assert OldestAfter(instants, first + 1 - Window) == Some(first);
  }
}

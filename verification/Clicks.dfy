/** Issuing click-outs under the click rule (internal/cashback/clickout). Instants are
    whole nanoseconds on one clock. */
module Clicks {
  import opened Options

  const Second: int := 1_000_000_000
  const Window: int := 3_600 * Second

  /** A recorded click; `promised` stands for the rate and share snapshotted with it. */
  datatype Click = Click(ref: nat, member: nat, context: Option<string>, offer: nat, route: nat, network: string, promised: nat, at: int)

  datatype ClickRule = ClickRule(perMember: int, perContext: int)

  /** The half of the rule that refused. */
  datatype Half = Member | Context

  datatype Refusal = TooManyClicks(rule: Half, allowed: int, retryAfter: int)

  /** What one half counts: the instants of the clicks of one member, or of one context. */
  function InstantsOf(clicks: seq<Click>, of: Click -> bool): (instants: seq<int>) {
    if |clicks| == 0 then []
    else
      var before := InstantsOf(clicks[..|clicks| - 1], of);
      if of(clicks[|clicks| - 1]) then before + [clicks[|clicks| - 1].at] else before
  }

  /** How many fall after an instant. */
  function CountAfter(instants: seq<int>, since: int): (n: nat)
    ensures n <= |instants|
    ensures n == 0 <==> forall x <- instants :: x <= since
  {
    if |instants| == 0 then 0
    else
      var before, last := instants[..|instants| - 1], instants[|instants| - 1];
      assert last in instants && (forall x <- before :: x in instants) && forall x <- instants :: x in before || x == last;
      CountAfter(before, since) + if last > since then 1 else 0
  }

  /** The earliest after an instant. */
  function OldestAfter(instants: seq<int>, since: int): (oldest: Option<int>)
    ensures oldest.Some? <==> CountAfter(instants, since) > 0
    ensures oldest.Some? ==> oldest.value in instants && oldest.value > since
    ensures oldest.Some? ==> forall x <- instants :: x > since ==> oldest.value <= x
  {
    if |instants| == 0 then None
    else
      var before, last := OldestAfter(instants[..|instants| - 1], since), instants[|instants| - 1];
      assert forall i :: i in instants <==> i in instants[..|instants| - 1] || i == last;
      if last > since && (before.None? || last < before.value) then Some(last) else before
  }

  /** refusal: a half whose allowance is used refuses, until the oldest click it counts
      leaves the window, and never for less than a second. */
  function Verdict(rule: Half, allowed: int, count: nat, oldest: Option<int>, at: int): (v: Option<Refusal>)
    ensures v.None? <==> count < allowed
    ensures v.Some? ==> v.value.rule == rule && v.value.allowed == allowed && v.value.retryAfter >= Second
    ensures v.Some? && oldest.Some? ==> v.value.retryAfter == Second || v.value.retryAfter == oldest.value + Window - at
    ensures v.Some? && oldest.Some? && oldest.value + Window - at >= Second ==> v.value.retryAfter == oldest.value + Window - at
  {
    if count < allowed then None
    else
      var retry := if oldest.Some? then oldest.value + Window - at else Window;
      Some(TooManyClicks(rule, allowed, if retry < Second then Second else retry))
  }

  function HalfVerdict(rule: Half, allowed: int, instants: seq<int>, at: int): Option<Refusal> {
    Verdict(rule, allowed, CountAfter(instants, at - Window), OldestAfter(instants, at - Window), at)
  }

  /** Allow: the member's half first, then the context's where there is one. A click is
      refused when either half that applies has used its allowance, and the member's half
      answers if it does. */
  function Allow(rule: ClickRule, clicks: seq<Click>, member: nat, context: Option<string>, at: int): (refusal: Option<Refusal>)
    ensures refusal.Some? <==>
      || UsedUp(rule.perMember, MemberInstants(clicks, member), at)
      || (context.Some? && UsedUp(rule.perContext, ContextInstants(clicks, context), at))
    ensures refusal.Some? ==> (refusal.value.rule == Member <==> UsedUp(rule.perMember, MemberInstants(clicks, member), at))
  {
    var byMember := if rule.perMember > 0 then HalfVerdict(Member, rule.perMember, MemberInstants(clicks, member), at) else None;
    if byMember.Some? then byMember
    else if rule.perContext > 0 && context.Some? then HalfVerdict(Context, rule.perContext, ContextInstants(clicks, context), at)
    else None
  }

  /** A half that applies has no click left: a half of no clicks is off. */
  predicate UsedUp(allowed: int, instants: seq<int>, at: int) { 0 < allowed <= CountAfter(instants, at - Window) }

  function MemberInstants(clicks: seq<Click>, member: nat): seq<int> { InstantsOf(clicks, (c: Click) => c.member == member) }

  function ContextInstants(clicks: seq<Click>, context: Option<string>): seq<int> { InstantsOf(clicks, (c: Click) => c.context == context) }

  // ---- the rule in the words of the table ----

  /** The recorded clicks of one member in the hour before an instant. */
  function RecentOf(clicks: seq<Click>, member: nat, at: int): set<nat> {
    set i | 0 <= i < |clicks| && clicks[i].member == member && clicks[i].at > at - 3_600_000_000_000
  }

  /** Those of one context. */
  function RecentIn(clicks: seq<Click>, context: Option<string>, at: int): set<nat> {
    set i | 0 <= i < |clicks| && clicks[i].context == context && clicks[i].at > at - 3_600_000_000_000
  }

  /** The oldest of these. */
  ghost predicate IsOldest(clicks: seq<Click>, ids: set<nat>, i: nat) {
    i in ids && i < |clicks| && forall j <- ids :: j < |clicks| ==> clicks[i].at <= clicks[j].at
  }

  /** Until an hour after it, and at least a second. */
  function WaitFor(oldest: int, at: int): int {
    if oldest + 3_600_000_000_000 - at < 1_000_000_000 then 1_000_000_000 else oldest + 3_600_000_000_000 - at
  }

  function Chosen(clicks: seq<Click>, of: Click -> bool, since: int): set<nat> {
    set i | 0 <= i < |clicks| && of(clicks[i]) && clicks[i].at > since
  }

  lemma {:induction false} CountIsCardinality(clicks: seq<Click>, of: Click -> bool, since: int)
    ensures CountAfter(InstantsOf(clicks, of), since) == |Chosen(clicks, of, since)|
  {
    if |clicks| > 0 {
      var before, last := clicks[..|clicks| - 1], clicks[|clicks| - 1];
      CountIsCardinality(before, of, since);
      ChosenNext(clicks, of, since);
      CountOneMore(InstantsOf(before, of), last.at, since);
      hide CountAfter, Chosen;
    }
  }

  lemma ChosenNext(clicks: seq<Click>, of: Click -> bool, since: int)
    requires |clicks| > 0
    ensures var before, last := clicks[..|clicks| - 1], clicks[|clicks| - 1];
      |Chosen(clicks, of, since)| == |Chosen(before, of, since)| + if of(last) && last.at > since then 1 else 0
  {
    var before, last := clicks[..|clicks| - 1], |clicks| - 1;
    assert Chosen(clicks, of, since) == if of(clicks[last]) && clicks[last].at > since then Chosen(before, of, since) + {last} else Chosen(before, of, since);
  }

  lemma CountOneMore(instants: seq<int>, at: int, since: int)
    ensures CountAfter(instants + [at], since) == CountAfter(instants, since) + if at > since then 1 else 0
  {
    assert (instants + [at])[..|instants|] == instants;
  }

  lemma {:induction false} InstantIsOf(clicks: seq<Click>, of: Click -> bool, at: int)
    ensures at in InstantsOf(clicks, of) <==> exists i :: 0 <= i < |clicks| && of(clicks[i]) && clicks[i].at == at
  {
    if |clicks| > 0 {
      InstantIsOf(clicks[..|clicks| - 1], of, at);
      assert forall i :: 0 <= i < |clicks| - 1 ==> clicks[..|clicks| - 1][i] == clicks[i];
    }
  }

  /** A click is refused exactly when as many as the allowance of one half that applies are
      on record for the hour before: this member's clicks, or this context's if the click
      has one. The member's half answers if it refuses; the answer names its allowance, and
      the wait until the oldest of those clicks is an hour old, or a second if that is
      less. */
  lemma AllowInWords(rule: ClickRule, clicks: seq<Click>, member: nat, context: Option<string>, at: int)
    ensures var refusal := Allow(rule, clicks, member, context, at);
      var over, crowded := 0 < rule.perMember <= |RecentOf(clicks, member, at)|, context.Some? && 0 < rule.perContext <= |RecentIn(clicks, context, at)|;
      && (refusal.Some? <==> over || crowded)
      && (refusal.Some? ==>
            && refusal.value.rule == (if over then Member else Context)
            && refusal.value.allowed == (if over then rule.perMember else rule.perContext)
            && exists i: nat :: IsOldest(clicks, if over then RecentOf(clicks, member, at) else RecentIn(clicks, context, at), i)
                 && refusal.value.retryAfter == WaitFor(clicks[i].at, at))
  {
    var byMember, byContext := (c: Click) => c.member == member, (c: Click) => c.context == context;
    SameInstants(clicks, byMember, (c: Click) => c.member == member);
    SameInstants(clicks, byContext, (c: Click) => c.context == context);
    if rule.perMember > 0 { HalfInWords(Member, rule.perMember, clicks, byMember, at); }
    if rule.perContext > 0 { HalfInWords(Context, rule.perContext, clicks, byContext, at); }
    assert Chosen(clicks, byMember, at - Window) == RecentOf(clicks, member, at);
    assert Chosen(clicks, byContext, at - Window) == RecentIn(clicks, context, at);
    hide HalfVerdict, InstantsOf, CountAfter, Chosen, RecentOf, RecentIn;
  }

  lemma {:induction false} SameInstants(clicks: seq<Click>, of: Click -> bool, also: Click -> bool)
    requires forall c :: of(c) == also(c)
    ensures InstantsOf(clicks, of) == InstantsOf(clicks, also)
  {
    if |clicks| > 0 { SameInstants(clicks[..|clicks| - 1], of, also); }
  }

  lemma HalfInWords(rule: Half, allowed: int, clicks: seq<Click>, of: Click -> bool, at: int)
    requires 0 < allowed
    ensures var v, recent := HalfVerdict(rule, allowed, InstantsOf(clicks, of), at), Chosen(clicks, of, at - Window);
      && (v.Some? <==> allowed <= |recent|) && (v.Some? ==> v.value.rule == rule && v.value.allowed == allowed)
      && (v.Some? ==> exists i: nat :: IsOldest(clicks, recent, i) && v.value.retryAfter == WaitFor(clicks[i].at, at))
  {
    var instants := InstantsOf(clicks, of);
    CountIsCardinality(clicks, of, at - Window);
    if CountAfter(instants, at - Window) > 0 {
      var oldest := OldestAfter(instants, at - Window).value;
      InstantIsOf(clicks, of, oldest);
      var i :| 0 <= i < |clicks| && of(clicks[i]) && clicks[i].at == oldest;
      forall j | j in Chosen(clicks, of, at - Window) ensures clicks[i].at <= clicks[j].at { InstantIsOf(clicks, of, clicks[j].at); }
      assert IsOldest(clicks, Chosen(clicks, of, at - Window), i);
    }
  }

  // ---- what RetryAfter promises ----

  lemma {:induction false} CountShrinks(instants: seq<int>, since: int, later: int)
    requires since <= later
    ensures CountAfter(instants, later) <= CountAfter(instants, since)
  {
    if |instants| > 0 { CountShrinks(instants[..|instants| - 1], since, later); }
  }

  lemma {:induction false} CountSame(instants: seq<int>, since: int, later: int)
    requires forall x <- instants :: x > since <==> x > later
    ensures CountAfter(instants, since) == CountAfter(instants, later)
  {
    if |instants| > 0 {
      var before := instants[..|instants| - 1];
      assert instants[|instants| - 1] in instants && forall x <- before :: x in instants;
      CountSame(before, since, later);
    }
  }

  lemma {:induction false} OldestLeaves(instants: seq<int>, since: int, oldest: int)
    requires oldest in instants && since < oldest
    ensures CountAfter(instants, oldest) < CountAfter(instants, since)
  {
    var before, last := instants[..|instants| - 1], instants[|instants| - 1];
    if last == oldest {
      CountShrinks(before, since, oldest);
    } else {
      assert oldest in before;
      OldestLeaves(before, since, oldest);
    }
  }

  /** When the rule lifts. A half that refuses goes on refusing until its oldest click
      leaves the window; and it allows a click at that very instant, with nothing recorded
      meanwhile, exactly when fewer than the allowance come after the oldest. So an answer
      of a second or more is exact if the count had not overshot, and too early if it
      had by more than the clicks that share the oldest's instant. */
  lemma LiftsWhenOldestLeaves(rule: Half, allowed: int, instants: seq<int>, at: int)
    requires allowed > 0 && HalfVerdict(rule, allowed, instants, at).Some?
    ensures var oldest := OldestAfter(instants, at - Window);
      && oldest.Some? && oldest.value + Window > at
      && (oldest.value + Window - at >= Second ==> HalfVerdict(rule, allowed, instants, at).value.retryAfter == oldest.value + Window - at)
      && (forall later :: at <= later < oldest.value + Window ==> HalfVerdict(rule, allowed, instants, later).Some?)
      && (HalfVerdict(rule, allowed, instants, oldest.value + Window).None? <==> CountAfter(instants, oldest.value) < allowed)
      && (CountAfter(instants, at - Window) <= allowed ==> HalfVerdict(rule, allowed, instants, oldest.value + Window).None?)
  {
    var oldest := OldestAfter(instants, at - Window).value;
    forall later | at <= later < oldest + Window ensures HalfVerdict(rule, allowed, instants, later).Some? {
      CountSame(instants, at - Window, later - Window);
    }
    OldestLeaves(instants, at - Window, oldest);
  }

  // ---- issuing ----

  datatype Offer = Offer(id: nat, route: nat, network: string, promised: nat)

  datatype Failure = Limited(refusal: Refusal) | NotOptedIn | NotAvailable | NoRedirect | Broken

  datatype Issued = Issued(click: Click, url: string) | Failed(failure: Failure)

  /** What the services an issue asks answer it: None is a service that failed. */
  datatype Answers = Answers(participating: Option<bool>, offer: Option<Option<Offer>>, ref: Option<nat>,
                             redirect: (Offer, nat) -> Option<string>, records: bool, recordedAt: int) {
    /** The member takes part, the offer is live and a reference has been minted. */
    predicate Reference() {
      participating == Some(true) && offer.Some? && offer.value.Some? && ref.Some?
    }
    /** Nothing any of them says stands in the way. */
    predicate Served() { Reference() && redirect(offer.value.value, ref.value).Some? && records }
    /** The first service with no answer comes before any that refuses. */
    predicate Breaks() {
      || participating.None?
      || (participating == Some(true) && (offer.None? || (offer.value.Some? && ref.None?)))
      || (Reference() && redirect(offer.value.value, ref.value).Some? && !records)
    }
  }

  class ClickOuts {
    var clicks: seq<Click>
    const rule: Option<ClickRule>

    constructor (rule: Option<ClickRule>)
      ensures clicks == [] && this.rule == rule
    {
      clicks, this.rule := [], rule;
    }

    ghost predicate Permitted(member: nat, context: Option<string>, at: int)
      reads this
    {
      rule.Some? ==> Allow(rule.value, clicks, member, context, at).None?
    }

    /** The rule, the opt-in, the offer, the reference, the redirect and only then the
        record. Whatever fails leaves the table as it was; and a redirect that is handed
        out carries the reference, the route, the network and the promise of a click that
        is recorded. */
    method Issue(member: nat, context: Option<string>, at: int, answers: Answers) returns (issued: Issued)
      modifies this
      ensures issued.Failed? ==> clicks == old(clicks)
      ensures issued.Issued? ==> clicks == old(clicks) + [issued.click]
      ensures issued.Issued? ==>
        && (rule.Some? ==> Allow(rule.value, old(clicks), member, context, at).None?)
        && answers.participating == Some(true)
        && answers.offer.Some? && answers.offer.value.Some?
        && var offer := answers.offer.value.value;
           && answers.ref == Some(issued.click.ref) && answers.redirect(offer, issued.click.ref) == Some(issued.url)
           && issued.click == Click(issued.click.ref, member, context, offer.id, offer.route, offer.network, offer.promised, answers.recordedAt)
      ensures issued.Failed? && issued.failure.Limited? <==> rule.Some? && Allow(rule.value, old(clicks), member, context, at).Some?
      ensures issued.Failed? && issued.failure.NotOptedIn? <==> old(Permitted(member, context, at)) && answers.participating.Some? && !answers.participating.value
      ensures issued.Failed? && issued.failure.NotAvailable? <==>
        old(Permitted(member, context, at)) && answers.participating == Some(true) && answers.offer == Some(None)
      ensures issued.Failed? && issued.failure.NoRedirect? <==>
        old(Permitted(member, context, at)) && answers.Reference() && answers.redirect(answers.offer.value.value, answers.ref.value).None?
      ensures issued.Failed? && issued.failure.Broken? <==> old(Permitted(member, context, at)) && answers.Breaks()
      ensures issued.Issued? <==> old(Permitted(member, context, at)) && answers.Served()
      ensures issued.Failed? && issued.failure.Limited? ==> Some(issued.failure.refusal) == Allow(rule.value, old(clicks), member, context, at)
    {
      var refusal := if rule.Some? then Allow(rule.value, clicks, member, context, at) else None;
      if refusal.Some? { return Failed(Limited(refusal.value)); }
      if answers.participating.None? { return Failed(Broken); }
      if !answers.participating.value { return Failed(NotOptedIn); }
      if answers.offer.None? { return Failed(Broken); }
      if answers.offer.value.None? { return Failed(NotAvailable); }
      if answers.ref.None? { return Failed(Broken); }
      var offer, ref := answers.offer.value.value, answers.ref.value;
      var redirect := answers.redirect(offer, ref);
      if redirect.None? { return Failed(NoRedirect); }
      if !answers.records { return Failed(Broken); }
      var click := Click(ref, member, context, offer.id, offer.route, offer.network, offer.promised, answers.recordedAt);
      clicks := clicks + [click];
      issued := Issued(click, redirect.value);
    }
  }
}

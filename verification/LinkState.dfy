/** The health of one link: a hysteretic machine driven by probe samples and a clock. */
module LinkStateModel {
  import opened Wrappers

  const PROBATION_MS := 10_000
  const HIGH_LOSS_STREAK := 5
  const NO_RESPONSE_STREAK := 3
  const RECOVERY_STREAK := 3

  datatype ProbeSample = Good | HighLoss | NoResponse

  datatype LinkState = Healthy | Probation(untilMs: nat) | Degraded | Dead {
    predicate IsBondable() { !Dead? }
  }

  datatype Transition = Transition(from: LinkState, to: LinkState)

  /** The streak counters are bytes that saturate. */
  datatype Machine = Machine(state: LinkState, highLoss: nat, noResponse: nat, recovery: nat)

  function SaturatingInc(x: nat): nat {
    if x < 255 then x + 1 else 255
  }

  function New(): Machine {
    Machine(Healthy, 0, 0, 0)
  }

  /** The streaks after a sample: it extends its own and clears the others. */
  function Count(m: Machine, sample: ProbeSample): Machine {
    match sample
    case Good => Machine(m.state, 0, 0, SaturatingInc(m.recovery))
    case HighLoss => Machine(m.state, SaturatingInc(m.highLoss), 0, 0)
    case NoResponse => Machine(m.state, 0, SaturatingInc(m.noResponse), 0)
  }

  function ComputeNext(m: Machine, nowMs: nat): LinkState {
    match m.state
    case Healthy =>
      if m.noResponse >= NO_RESPONSE_STREAK then Dead
      else if m.highLoss >= HIGH_LOSS_STREAK then Degraded
      else Healthy
    case Degraded =>
      if m.noResponse >= NO_RESPONSE_STREAK then Dead
      else if m.recovery >= RECOVERY_STREAK then Probation(nowMs + PROBATION_MS)
      else Degraded
    case Dead =>
      if m.recovery >= RECOVERY_STREAK then Probation(nowMs + PROBATION_MS) else Dead
    case Probation(untilMs) =>
      if m.noResponse >= NO_RESPONSE_STREAK then Dead
      else if m.highLoss >= HIGH_LOSS_STREAK then Degraded
      else if nowMs >= untilMs then Healthy
      else Probation(untilMs)
  }

  function OnProbe(m: Machine, sample: ProbeSample, nowMs: nat): Machine {
    var counted := Count(m, sample);
    var next := ComputeNext(counted, nowMs);
    if next != m.state then Machine(next, 0, 0, 0) else counted
  }

  function OnTick(m: Machine, nowMs: nat): Machine {
    if m.state.Probation? && nowMs >= m.state.untilMs then m.(state := Healthy, recovery := 0) else m
  }

  class LinkStateMachine {
    var state: LinkState
    var highLossStreak: nat
    var noResponseStreak: nat
    var recoveryStreak: nat

    function Model(): Machine
      reads this
    {
      Machine(state, highLossStreak, noResponseStreak, recoveryStreak)
    }

    constructor ()
      ensures Model() == New()
    {
      state, highLossStreak, noResponseStreak, recoveryStreak := Healthy, 0, 0, 0;
    }

    method Probe(sample: ProbeSample, nowMs: nat) returns (t: Option<Transition>)
      modifies this
      ensures Model() == OnProbe(old(Model()), sample, nowMs)
      ensures t == if state == old(state) then None else Some(Transition(old(state), state))
    {
      match sample {
        case Good =>
          highLossStreak, noResponseStreak, recoveryStreak := 0, 0, SaturatingInc(recoveryStreak);
        case HighLoss =>
          recoveryStreak, noResponseStreak, highLossStreak := 0, 0, SaturatingInc(highLossStreak);
        case NoResponse =>
          recoveryStreak, highLossStreak, noResponseStreak := 0, 0, SaturatingInc(noResponseStreak);
      }
      var next := ComputeNext(Model(), nowMs);
      if next == state {
        return None;
      }
      t := Some(Transition(state, next));
      state := next;
      highLossStreak, noResponseStreak, recoveryStreak := 0, 0, 0;
    }

    method Tick(nowMs: nat) returns (t: Option<Transition>)
      modifies this
      ensures Model() == OnTick(old(Model()), nowMs)
      ensures t == if state == old(state) then None else Some(Transition(old(state), state))
    {
      if state.Probation? && nowMs >= state.untilMs {
        t := Some(Transition(state, Healthy));
        state := Healthy;
        recoveryStreak := 0;
        return;
      }
      return None;
    }
  }

  // ----- Runs

  datatype Event = Probed(sample: ProbeSample, nowMs: nat) | Ticked(nowMs: nat)

  function Step(m: Machine, e: Event): Machine {
    match e
    case Probed(sample, nowMs) => OnProbe(m, sample, nowMs)
    case Ticked(nowMs) => OnTick(m, nowMs)
  }

  function After(m: Machine, events: seq<Event>): Machine {
    if events == [] then m else Step(After(m, events[..|events| - 1]), events[|events| - 1])
  }

  /** How many of the latest samples in a row are `sample`; ticks do not interrupt a streak. */
  function Trailing(events: seq<Event>, sample: ProbeSample): nat {
    if events == [] then 0
    else
      var init, e := events[..|events| - 1], events[|events| - 1];
      if e.Ticked? then Trailing(init, sample)
      else if e.sample == sample then 1 + Trailing(init, sample)
      else 0
  }

  lemma {:induction false} StreaksAreTrailing(events: seq<Event>)
    ensures var m := After(New(), events);
            && m.noResponse <= Trailing(events, NoResponse)
            && m.highLoss <= Trailing(events, HighLoss)
            && m.recovery <= Trailing(events, Good)
  {
    if events != [] {
      StreaksAreTrailing(events[..|events| - 1]);
    }
  }

  /** How each state is entered, in every run from a new machine. */
  lemma EntryConditions(events: seq<Event>)
    requires events != []
    ensures var before := After(New(), events[..|events| - 1]).state;
            var after := After(New(), events).state;
            var e := events[|events| - 1];
            && (after.Dead? && !before.Dead? ==> Trailing(events, NoResponse) >= 3)
            && (after.Degraded? && !before.Degraded? ==> Trailing(events, HighLoss) >= 5)
            && (after.Probation? && after != before ==>
                  && (before.Dead? || before.Degraded?) && Trailing(events, Good) >= 3
                  && after.untilMs == e.nowMs + PROBATION_MS)
            && (after.Healthy? && !before.Healthy? ==> before.Probation? && e.nowMs >= before.untilMs)
  {
    StreaksAreTrailing(events[..|events| - 1]);
  }

  // ----- How each state is left, told by the samples since the last transition a probe made

  /** The number of events up to and with the last probe that changed the state. */
  ghost function Settled(events: seq<Event>): (j: nat)
    ensures j <= |events|
  {
    if events == [] then 0
    else
      var init, e := events[..|events| - 1], events[|events| - 1];
      if e.Probed? && After(New(), events).state != After(New(), init).state then |events| else Settled(init)
  }

  /** How many of the latest samples in a row are `sample`, counted since that probe. */
  ghost function Streak(events: seq<Event>, sample: ProbeSample): nat {
    Trailing(events[Settled(events)..], sample)
  }

  /** The streak a probe brings about if it changes nothing. */
  ghost function Extended(events: seq<Event>, e: Event, sample: ProbeSample): nat {
    if e.Probed? && e.sample == sample then Streak(events, sample) + 1 else 0
  }

  lemma SettledStep(events: seq<Event>, e: Event)
    ensures var moved := Step(After(New(), events), e).state != After(New(), events).state;
            Settled(events + [e]) == if e.Probed? && moved then |events| + 1 else Settled(events)
  {
    hide Step;
    assert (events + [e])[..|events|] == events;
  }

  lemma TrailingStep(events: seq<Event>, j: nat, e: Event, sample: ProbeSample)
    requires j <= |events|
    ensures Trailing((events + [e])[j..], sample) ==
            if e.Ticked? then Trailing(events[j..], sample)
            else if e.sample == sample then Trailing(events[j..], sample) + 1 else 0
  {
    assert (events + [e])[j..] == events[j..] + [e] && (events[j..] + [e])[..|events| - j] == events[j..];
  }

  lemma StreakStep(events: seq<Event>, e: Event, sample: ProbeSample)
    ensures var moved := Step(After(New(), events), e).state != After(New(), events).state;
            Streak(events + [e], sample) ==
            if e.Ticked? then Streak(events, sample) else if moved then 0 else Extended(events, e, sample)
  {
    hide Step, After, Settled;
    SettledStep(events, e);
    TrailingStep(events, Settled(events), e, sample);
    assert (events + [e])[|events| + 1..] == [];
  }

  function Saturated(n: nat): nat {
    if n < 255 then n else 255
  }

  /** The counters are the streaks; a tick that ends a probation clears one that health does not use. */
  ghost predicate CountsStreaks(m: Machine, noResponse: nat, highLoss: nat, good: nat) {
    && m.noResponse == Saturated(noResponse) && m.highLoss == Saturated(highLoss)
    && (!m.state.Healthy? ==> m.recovery == Saturated(good))
  }

  lemma CountersStep(m: Machine, e: Event, n: nat, h: nat, g: nat, n': nat, h': nat, g': nat)
    requires CountsStreaks(m, n, h, g)
    requires e.Ticked? ==> n' == n && h' == h && g' == g
    requires e.Probed? && Step(m, e).state != m.state ==> n' == h' == g' == 0
    requires e.Probed? && Step(m, e).state == m.state ==>
               && n' == (if e.sample == NoResponse then n + 1 else 0)
               && h' == (if e.sample == HighLoss then h + 1 else 0)
               && g' == (if e.sample == Good then g + 1 else 0)
    ensures CountsStreaks(Step(m, e), n', h', g')
  {
  }

  lemma {:induction false} CountersAreStreaks(events: seq<Event>)
    ensures CountsStreaks(After(New(), events), Streak(events, NoResponse), Streak(events, HighLoss),
                          Streak(events, Good))
  {
    if events != [] {
      hide CountsStreaks, Step, Streak;
      var init, e := events[..|events| - 1], events[|events| - 1];
      assert events == init + [e];
      CountersAreStreaks(init);
      StreakStep(init, e, NoResponse);
      StreakStep(init, e, HighLoss);
      StreakStep(init, e, Good);
      CountersStep(After(New(), init), e, Streak(init, NoResponse), Streak(init, HighLoss), Streak(init, Good),
                   Streak(events, NoResponse), Streak(events, HighLoss), Streak(events, Good));
    }
  }

  lemma NextState(m: Machine, e: Event, n: nat, h: nat, g: nat)
    requires CountsStreaks(m, n, h, g)
    ensures var (before, after) := (m.state, Step(m, e).state);
            var silent := e.Probed? && e.sample.NoResponse? && n + 1 >= 3;
            var lossy := e.Probed? && e.sample.HighLoss? && h + 1 >= 5;
            var good := e.Probed? && e.sample.Good? && g + 1 >= 3;
            match before {
              case Dead => after == if good then Probation(e.nowMs + 10_000) else Dead
              case Degraded => after == if silent then Dead else if good then Probation(e.nowMs + 10_000) else Degraded
              case Healthy => after == if silent then Dead else if lossy then Degraded else Healthy
              case Probation(untilMs) =>
                after == if silent then Dead else if lossy then Degraded
                         else if e.nowMs >= untilMs then Healthy else before
            }
  {
  }

  /** In every run, exactly how each state is left. `Dead` is left only for a probation, at the third
      good sample in a row since it was entered. `Degraded` is left at the third unanswered one for
      `Dead` or at the third good one for a probation. `Healthy` is left at the third unanswered one
      for `Dead` or at the fifth lossy one for `Degraded`. A probation is left for the same two, or else
      at its end for `Healthy`. A tick changes nothing but a probation that has ended. */
  lemma ExitConditions(events: seq<Event>, e: Event)
    ensures var (before, after) := (After(New(), events).state, After(New(), events + [e]).state);
            var silent := Extended(events, e, NoResponse) >= 3;
            var lossy := Extended(events, e, HighLoss) >= 5;
            var good := Extended(events, e, Good) >= 3;
            match before {
              case Dead => after == if good then Probation(e.nowMs + 10_000) else Dead
              case Degraded => after == if silent then Dead else if good then Probation(e.nowMs + 10_000) else Degraded
              case Healthy => after == if silent then Dead else if lossy then Degraded else Healthy
              case Probation(untilMs) =>
                after == if silent then Dead else if lossy then Degraded
                         else if e.nowMs >= untilMs then Healthy else before
            }
  {
    hide Step, Streak, CountsStreaks;
    CountersAreStreaks(events);
    assert (events + [e])[..|events|] == events;
    NextState(After(New(), events), e, Streak(events, NoResponse), Streak(events, HighLoss), Streak(events, Good));
  }

  lemma {:induction false} SuffixTrailing(events: seq<Event>, j: nat, sample: ProbeSample)
    requires j <= |events|
    ensures Trailing(events[j..], sample) <= Trailing(events, sample)
  {
    if j < |events| {
      SuffixTrailing(events[..|events| - 1], j, sample);
      assert events[j..][..|events| - 1 - j] == events[..|events| - 1][j..];
    }
  }

  /** A dead link stays dead until the latest three samples are all good, and then is on probation. */
  lemma DeadIsLeftForProbation(events: seq<Event>, e: Event)
    requires After(New(), events).state.Dead? && !After(New(), events + [e]).state.Dead?
    ensures After(New(), events + [e]).state == Probation(e.nowMs + 10_000)
    ensures e.Probed? && Trailing(events + [e], Good) >= 3
  {
    hide After;
    ExitConditions(events, e);
    assert (events + [e])[..|events|] == events;
    SuffixTrailing(events, Settled(events), Good);
  }

  /** A probation was entered once, ten seconds before its end, and has lasted since. */
  lemma {:induction false} ProbationOrigin(events: seq<Event>) returns (j: nat)
    requires After(New(), events).state.Probation?
    ensures j < |events| && !After(New(), events[..j]).state.Probation?
    ensures After(New(), events).state.untilMs == events[j].nowMs + PROBATION_MS
    ensures forall i :: j < i <= |events| ==> After(New(), events[..i]).state == After(New(), events).state
  {
    var n := |events| - 1;
    var init := events[..n];
    assert events[..|events|] == events;
    EntryConditions(events);
    if After(New(), init).state == After(New(), events).state {
      j := ProbationOrigin(init);
      forall i | j < i <= n ensures After(New(), events[..i]).state == After(New(), events).state {
        assert init[..i] == events[..i];
      }
      assert init[..j] == events[..j];
    } else {
      j := n;
    }
  }

  /** A link that was dead is healthy again only by way of a probation that was entered at some
      time `t` and left for `Healthy` at a time not before `t + 10 000`. */
  lemma {:induction false} DeadToHealthy(events: seq<Event>, i: nat) returns (j: nat, n: nat)
    requires i <= |events| && After(New(), events[..i]).state.Dead? && After(New(), events).state.Healthy?
    ensures i <= j < n < |events|
    ensures !After(New(), events[..j]).state.Probation? && After(New(), events[..j + 1]).state.Probation?
    ensures forall k :: j < k <= n ==> After(New(), events[..k]).state == Probation(events[j].nowMs + PROBATION_MS)
    ensures After(New(), events[..n + 1]).state.Healthy? && events[n].nowMs >= events[j].nowMs + PROBATION_MS
  {
    hide After, Trailing;
    assert events[..|events|] == events;
    assert i < |events|;
    var m := |events| - 1;
    var init := events[..m];
    assert forall k :: 0 <= k <= m ==> init[..k] == events[..k];
    if After(New(), init).state.Healthy? {
      j, n := DeadToHealthy(init, i);
    } else {
      EntryConditions(events);
      n := m;
      j := ProbationOrigin(init);
      assert After(New(), init[..i]).state.Dead?;
    }
  }

  // ----- What a streak of one kind of sample does, whatever the clock and the ticks between do

  ghost predicate AllAre(events: seq<Event>, sample: ProbeSample) {
    forall i :: 0 <= i < |events| && events[i].Probed? ==> events[i].sample == sample
  }

  function Probes(events: seq<Event>): nat {
    if events == [] then 0 else Probes(events[..|events| - 1]) + if events[|events| - 1].Probed? then 1 else 0
  }

  /** How many unanswered probes a link survives at most, plus one. */
  function Lives(m: Machine): nat {
    match m.state
    case Dead => 0
    case Probation(_) => if m.noResponse >= 2 then 1 else 5 - m.noResponse
    case _ => if m.noResponse >= 2 then 1 else 3 - m.noResponse
  }

  lemma {:induction false} SilenceCostsLives(m: Machine, events: seq<Event>)
    requires AllAre(events, NoResponse)
    ensures Lives(After(m, events)) == 0 || Lives(After(m, events)) + Probes(events) <= Lives(m)
  {
    if events != [] {
      var init, e := events[..|events| - 1], events[|events| - 1];
      SilenceCostsLives(m, init);
      assert e.Probed? ==> e.sample == NoResponse;
    }
  }

  /** Three unanswered probes in a row kill a healthy or degraded link and five kill a link on
      probation; a dead link stays dead under silence. */
  lemma SilenceKills(m: Machine, events: seq<Event>)
    requires AllAre(events, NoResponse)
    requires Probes(events) >= match m.state { case Dead => 0 case Probation(_) => 5 case _ => 3 }
    ensures After(m, events).state.Dead?
  {
    SilenceCostsLives(m, events);
  }

  /** How many lossy probes a link passes at most before it is degraded, plus one. */
  function Tolerance(m: Machine): nat {
    match m.state
    case Degraded => 0
    case Probation(_) => if m.highLoss >= 4 then 1 else 9 - m.highLoss
    case _ => if m.highLoss >= 4 then 1 else 5 - m.highLoss
  }

  lemma {:induction false} LossCostsTolerance(m: Machine, events: seq<Event>)
    requires !m.state.Dead? && AllAre(events, HighLoss)
    ensures !After(m, events).state.Dead?
    ensures Tolerance(After(m, events)) == 0 || Tolerance(After(m, events)) + Probes(events) <= Tolerance(m)
  {
    if events != [] {
      var init, e := events[..|events| - 1], events[|events| - 1];
      LossCostsTolerance(m, init);
      assert e.Probed? ==> e.sample == HighLoss;
    }
  }

  /** Five lossy probes in a row degrade a healthy link and nine a link on probation. */
  lemma LossDegrades(m: Machine, events: seq<Event>)
    requires !m.state.Dead? && AllAre(events, HighLoss)
    requires Probes(events) >= match m.state { case Degraded => 0 case Probation(_) => 9 case _ => 5 }
    ensures After(m, events).state.Degraded?
  {
    LossCostsTolerance(m, events);
  }

  /** How many good probes a dead or degraded link needs at most. */
  function Distrust(m: Machine): nat {
    if !m.state.Dead? && !m.state.Degraded? then 0 else if m.recovery >= 2 then 1 else 3 - m.recovery
  }

  lemma {:induction false} GoodEarnsTrust(m: Machine, events: seq<Event>)
    requires AllAre(events, Good)
    ensures Distrust(After(m, events)) == 0 || Distrust(After(m, events)) + Probes(events) <= Distrust(m)
  {
    if events != [] {
      var init, e := events[..|events| - 1], events[|events| - 1];
      GoodEarnsTrust(m, init);
      assert e.Probed? ==> e.sample == Good;
    }
  }

  /** Three good probes in a row bring any link back to probation or health, and a link on probation
      is healthy as soon as a tick or a good probe comes at or after its end. */
  lemma GoodRecovers(m: Machine, events: seq<Event>, e: Event)
    requires AllAre(events + [e], Good) && Probes(events) >= 3
    ensures var before := After(m, events).state;
            && (before.Probation? || before.Healthy?)
            && (before.Probation? && e.nowMs >= before.untilMs ==> Step(After(m, events), e).state.Healthy?)
  {
    assert forall i :: 0 <= i < |events| ==> (events + [e])[i] == events[i];
    assert (events + [e])[|events|] == e;
    GoodEarnsTrust(m, events);
  }

  // ----- Exactly what a bad sample does on probation

  /** How many bad samples of one kind in a row change the state, and to what. */
  function Needed(bad: ProbeSample): nat {
    if bad.NoResponse? then NO_RESPONSE_STREAK else HIGH_LOSS_STREAK
  }

  function Fallen(bad: ProbeSample): LinkState {
    if bad.NoResponse? then Dead else Degraded
  }

  function WithStreak(state: LinkState, bad: ProbeSample, n: nat): Machine {
    if bad.NoResponse? then Machine(state, 0, n, 0) else Machine(state, n, 0, 0)
  }

  /** The first event at or after the end of a probation, or the number of events. */
  function FirstAfter(untilMs: nat, events: seq<Event>): (i: nat)
    ensures i <= |events|
  {
    if events == [] then 0
    else
      var i := FirstAfter(untilMs, events[..|events| - 1]);
      if i < |events| - 1 || events[|events| - 1].nowMs >= untilMs then i else i + 1
  }

  /** The samples whose streak is thrown away: those up to a probe that ends the probation, if they
      are too few to end it badly. A tick that ends a probation leaves the streak. */
  function Forgiven(untilMs: nat, events: seq<Event>, bad: ProbeSample): nat {
    var i := FirstAfter(untilMs, events);
    if i < |events| && events[i].Probed? && Probes(events[..i + 1]) < Needed(bad) then Probes(events[..i + 1]) else 0
  }

  lemma FirstAfterStep(untilMs: nat, events: seq<Event>, e: Event, bad: ProbeSample)
    ensures var (i, i') := (FirstAfter(untilMs, events), FirstAfter(untilMs, events + [e]));
            && i' == (if i == |events| && e.nowMs < untilMs then i + 1 else i)
            && (i < |events| ==> Forgiven(untilMs, events + [e], bad) == Forgiven(untilMs, events, bad))
  {
    var i := FirstAfter(untilMs, events);
    assert (events + [e])[..|events|] == events;
    if i < |events| {
      assert (events + [e])[..i + 1] == events[..i + 1];
    }
  }

  /** One event under bad samples of one kind, before and after the link has fallen. */
  lemma BadStep(m: Machine, bad: ProbeSample, n: nat, e: Event)
    requires !bad.Good? && n < Needed(bad) && (e.Probed? ==> e.sample == bad)
    requires m.state.Healthy? || m.state.Probation?
    requires m == WithStreak(m.state, bad, n)
    ensures var over := m.state.Probation? && e.nowMs >= m.state.untilMs;
            var m' := Step(m, e);
            if e.Ticked? then m' == WithStreak(if over then Healthy else m.state, bad, n)
            else if n + 1 == Needed(bad) then m' == Machine(Fallen(bad), 0, 0, 0)
            else m' == if over then Machine(Healthy, 0, 0, 0) else WithStreak(m.state, bad, n + 1)
  {
  }

  lemma FallenStays(m: Machine, bad: ProbeSample, e: Event)
    requires !bad.Good? && m.state == Fallen(bad) && (e.Probed? ==> e.sample == bad)
    ensures Step(m, e).state == Fallen(bad)
  {
  }

  lemma AfterSnoc(m: Machine, events: seq<Event>, e: Event)
    ensures After(m, events + [e]) == Step(After(m, events), e)
    ensures Probes(events + [e]) == Probes(events) + if e.Probed? then 1 else 0
  {
    assert (events + [e])[..|events|] == events;
  }

  /** The machine after a new probation and bad samples of one kind, ticks and clock arbitrary. */
  lemma {:induction false} ProbationUnder(untilMs: nat, events: seq<Event>, bad: ProbeSample)
    requires !bad.Good? && AllAre(events, bad)
    ensures var (m, n) := (After(Machine(Probation(untilMs), 0, 0, 0), events), Probes(events));
            var forgiven := Forgiven(untilMs, events, bad);
            if n >= Needed(bad) + forgiven then m.state == Fallen(bad)
            else if FirstAfter(untilMs, events) == |events| then m == WithStreak(Probation(untilMs), bad, n)
            else n >= forgiven && m == WithStreak(Healthy, bad, n - forgiven)
  {
    hide After, Step, Probes, FirstAfter;
    var start := Machine(Probation(untilMs), 0, 0, 0);
    if events == [] {
      NothingYet(start, untilMs);
    } else {
      var init, e := events[..|events| - 1], events[|events| - 1];
      assert events == init + [e] && events[..|events|] == events;
      assert e.Probed? ==> e.sample == bad;
      ProbationUnder(untilMs, init, bad);
      FirstAfterStep(untilMs, init, e, bad);
      AfterSnoc(start, init, e);
      var (m, n, forgiven) := (After(start, init), Probes(init), Forgiven(untilMs, init, bad));
      if n >= Needed(bad) + forgiven {
        FallenStays(m, bad, e);
      } else {
        BadStep(m, bad, n - forgiven, e);
      }
    }
  }

  lemma NothingYet(m: Machine, untilMs: nat)
    ensures After(m, []) == m && Probes([]) == 0 && FirstAfter(untilMs, []) == 0
  {
  }

  lemma {:induction false} AfterAppend(m: Machine, a: seq<Event>, b: seq<Event>)
    ensures After(m, a + b) == After(After(m, a), b)
  {
    if b == [] {
      assert a + b == a;
    } else {
      AfterAppend(m, a, b[..|b| - 1]);
      assert (a + b)[..|a + b| - 1] == a + b[..|b| - 1];
    }
  }

  lemma EntryClearsStreaks(m: Machine, events: seq<Event>)
    requires events != [] && After(m, events).state.Probation?
    requires After(m, events[..|events| - 1]).state != After(m, events).state
    ensures After(m, events) == Machine(After(m, events).state, 0, 0, 0)
  {
  }

  /** In every run: after a probation is entered, bad samples of one kind kill or degrade the link
      exactly when there are three or five of them beyond those forgiven. Before the end of the
      probation none are, and fewer leave it on probation: a single one never ends it. */
  lemma ProbationFallsIff(before: seq<Event>, events: seq<Event>, bad: ProbeSample)
    requires before != [] && !bad.Good? && AllAre(events, bad)
    requires var (m, m') := (After(New(), before[..|before| - 1]), After(New(), before));
             m'.state.Probation? && m.state != m'.state
    ensures var untilMs := After(New(), before).state.untilMs;
            var state := After(New(), before + events).state;
            && (state == Fallen(bad) <==> Probes(events) >= Needed(bad) + Forgiven(untilMs, events, bad))
            && (state in {Fallen(bad), Healthy, Probation(untilMs)})
            && ((forall i :: 0 <= i < |events| ==> events[i].nowMs < untilMs) ==>
                  state == if Probes(events) >= Needed(bad) then Fallen(bad) else Probation(untilMs))
  {
    hide Probes, Forgiven, Step;
    EntryClearsStreaks(New(), before);
    AfterAppend(New(), before, events);
    ProbationOutcome(After(New(), before).state.untilMs, events, bad, After(New(), before + events).state);
  }

  lemma ProbationOutcome(untilMs: nat, events: seq<Event>, bad: ProbeSample, state: LinkState)
    requires !bad.Good? && AllAre(events, bad)
    requires state == After(Machine(Probation(untilMs), 0, 0, 0), events).state
    ensures state == Fallen(bad) <==> Probes(events) >= Needed(bad) + Forgiven(untilMs, events, bad)
    ensures state in {Fallen(bad), Healthy, Probation(untilMs)}
    ensures (forall i :: 0 <= i < |events| ==> events[i].nowMs < untilMs) ==>
      state == if Probes(events) >= Needed(bad) then Fallen(bad) else Probation(untilMs)
  {
    hide After;
    ProbationUnder(untilMs, events, bad);
    if forall i :: 0 <= i < |events| ==> events[i].nowMs < untilMs {
      NoneAfter(untilMs, events);
    }
  }

  lemma {:induction false} NoneAfter(untilMs: nat, events: seq<Event>)
    requires forall i :: 0 <= i < |events| ==> events[i].nowMs < untilMs
    ensures FirstAfter(untilMs, events) == |events|
  {
    if events != [] {
      NoneAfter(untilMs, events[..|events| - 1]);
    }
  }

  /** The same sample `n` times at one time. */
  function Times(sample: ProbeSample, nowMs: nat, n: nat): seq<Event> {
    if n == 0 then [] else Times(sample, nowMs, n - 1) + [Probed(sample, nowMs)]
  }

  lemma {:induction false} TimesFacts(sample: ProbeSample, nowMs: nat, n: nat)
    ensures AllAre(Times(sample, nowMs, n), sample) && Probes(Times(sample, nowMs, n)) == n
  {
    if n > 0 {
      TimesFacts(sample, nowMs, n - 1);
      ProbesAppend(Times(sample, nowMs, n - 1), [Probed(sample, nowMs)]);
      OneProbe(sample, nowMs);
    }
  }

  lemma OneProbe(sample: ProbeSample, nowMs: nat)
    ensures Probes([Probed(sample, nowMs)]) == 1
  {
  }

  /** Too few bad samples only count. */
  lemma {:induction false} TooFew(state: LinkState, bad: ProbeSample, nowMs: nat, n: nat)
    requires !bad.Good? && n < Needed(bad) && (state.Healthy? || (state.Probation? && nowMs < state.untilMs))
    ensures After(Machine(state, 0, 0, 0), Times(bad, nowMs, n)) == WithStreak(state, bad, n)
  {
    hide After, Step;
    NothingYet(Machine(state, 0, 0, 0), 0);
    if n > 0 {
      TooFew(state, bad, nowMs, n - 1);
      AfterSnoc(Machine(state, 0, 0, 0), Times(bad, nowMs, n - 1), Probed(bad, nowMs));
      BadStep(WithStreak(state, bad, n - 1), bad, n - 1, Probed(bad, nowMs));
    }
  }

  lemma Recovers(m: Machine)
    requires (m.state.Dead? || m.state.Degraded?) && m == Machine(m.state, 0, 0, 0)
    ensures After(m, Times(Good, 0, 3)) == Machine(Probation(10_000), 0, 0, 0)
  {
    hide After;
    NothingYet(m, 0);
    var e := Probed(Good, 0);
    AfterSnoc(m, Times(Good, 0, 0), e);
    AfterSnoc(m, Times(Good, 0, 1), e);
    AfterSnoc(m, Times(Good, 0, 2), e);
  }

  lemma FallsAndRecovers(bad: ProbeSample)
    requires !bad.Good?
    ensures After(New(), Times(bad, 0, Needed(bad)) + Times(Good, 0, 3)) == Machine(Probation(10_000), 0, 0, 0)
  {
    hide After, Step;
    var k := Needed(bad);
    TooFew(Healthy, bad, 0, k - 1);
    AfterSnoc(New(), Times(bad, 0, k - 1), Probed(bad, 0));
    BadStep(WithStreak(Healthy, bad, k - 1), bad, k - 1, Probed(bad, 0));
    AfterAppend(New(), Times(bad, 0, k), Times(Good, 0, 3));
    Recovers(Machine(Fallen(bad), 0, 0, 0));
  }

  /** Five and nine are exact. In a run that falls, recovers to probation and then meets only bad
      samples, two or four of them are forgiven, and four or eight do not end the link. */
  lemma OneLessMaySpare(bad: ProbeSample)
    requires !bad.Good?
    ensures var k := Needed(bad);
            var before := Times(bad, 0, k) + Times(Good, 0, 3);
            var events := Times(bad, 0, k - 2) + [Probed(bad, 10_000)] + Times(bad, 10_000, k - 1);
            && After(New(), before).state == Probation(10_000)
            && AllAre(events, bad) && Probes(events) == 2 * k - 2
            && After(New(), before + events).state == Healthy
  {
    hide After, Step, Probes, Times;
    var k := Needed(bad);
    var before := Times(bad, 0, k) + Times(Good, 0, 3);
    var early, late := Times(bad, 0, k - 2) + [Probed(bad, 10_000)], Times(bad, 10_000, k - 1);
    var m := Machine(Probation(10_000), 0, 0, 0);
    FallsAndRecovers(bad);
    TooFew(Probation(10_000), bad, 0, k - 2);
    AfterSnoc(m, Times(bad, 0, k - 2), Probed(bad, 10_000));
    BadStep(WithStreak(Probation(10_000), bad, k - 2), bad, k - 2, Probed(bad, 10_000));
    TooFew(Healthy, bad, 10_000, k - 1);
    AfterAppend(m, early, late);
    AfterAppend(New(), before, early + late);
    TimesFacts(bad, 0, k - 2);
    TimesFacts(bad, 10_000, k - 1);
    ProbesAppend(early, late);
  }

  lemma {:induction false} ProbesAppend(a: seq<Event>, b: seq<Event>)
    ensures Probes(a + b) == Probes(a) + Probes(b)
  {
    if b == [] {
      assert a + b == a;
    } else {
      ProbesAppend(a, b[..|b| - 1]);
      assert (a + b)[..|a + b| - 1] == a + b[..|b| - 1];
    }
  }
}

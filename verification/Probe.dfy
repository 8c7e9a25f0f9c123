/** The probe scheduler: numbered probes, each acknowledged once, timed out once, or in flight. */
module ProbeModel {
  import opened Wrappers
  import opened Arithmetic

  datatype ProbeAck = ProbeAck(sn: nat, rttUs: nat)

  /** `lastSendUs` is absent before the first probe. */
  datatype State = State(
    intervalUs: nat,
    timeoutUs: nat,
    lastSendUs: Option<nat>,
    nextSeq: nat,
    inFlight: map<nat, nat>)

  function SaturatingSub(a: nat, b: nat): nat {
    if a < b then 0 else a - b
  }

  function Init(intervalUs: nat, timeoutUs: nat): State {
    State(intervalUs, timeoutUs, None, 0, map[])
  }

  predicate IsDue(s: State, nowUs: nat) {
    s.lastSendUs.None? || SaturatingSub(nowUs, s.lastSendUs.value) >= s.intervalUs
  }

  function Issue(s: State, nowUs: nat): State {
    s.(nextSeq := (s.nextSeq + 1) % WORD, inFlight := s.inFlight[s.nextSeq := nowUs], lastSendUs := Some(nowUs))
  }

  function OnAck(s: State, sn: nat): State {
    s.(inFlight := s.inFlight - {sn})
  }

  /** The probes that have waited the timeout or longer. */
  function Expired(s: State, nowUs: nat): set<nat> {
    set sn | sn in s.inFlight && SaturatingSub(nowUs, s.inFlight[sn]) >= s.timeoutUs
  }

  function DrainTimeouts(s: State, nowUs: nat): State {
    s.(inFlight := s.inFlight - Expired(s, nowUs))
  }

  class ProbeScheduler {
    const intervalUs: nat
    const timeoutUs: nat
    var lastSendUs: Option<nat>
    var nextSeq: nat
    var inFlight: map<nat, nat>

    function Model(): State
      reads this
    {
      State(intervalUs, timeoutUs, lastSendUs, nextSeq, inFlight)
    }

    constructor (intervalUs: nat, timeoutUs: nat)
      requires intervalUs > 0 && timeoutUs > 0
      ensures Model() == Init(intervalUs, timeoutUs)
    {
      this.intervalUs, this.timeoutUs := intervalUs, timeoutUs;
      lastSendUs, nextSeq, inFlight := None, 0, map[];
    }

    method IssueProbe(nowUs: nat) returns (sn: nat)
      modifies this
      ensures sn == old(nextSeq) && Model() == Issue(old(Model()), nowUs)
    {
      sn := nextSeq;
      nextSeq := (nextSeq + 1) % WORD;
      inFlight := inFlight[sn := nowUs];
      lastSendUs := Some(nowUs);
    }

    method Ack(sn: nat, nowUs: nat) returns (r: Option<ProbeAck>)
      modifies this
      ensures Model() == OnAck(old(Model()), sn)
      ensures r == if sn in old(inFlight)
                   then Some(ProbeAck(sn, SaturatingSub(nowUs, old(inFlight)[sn]) % 0x1_0000_0000)) else None
    {
      if sn !in inFlight {
        assert inFlight - {sn} == inFlight;
        return None;
      }
      var sendUs := inFlight[sn];
      inFlight := inFlight - {sn};
      return Some(ProbeAck(sn, SaturatingSub(nowUs, sendUs) % 0x1_0000_0000));
    }

    /** Remove the expired probes one by one; they are reported in ascending order. */
    method Drain(nowUs: nat) returns (out: seq<nat>)
      modifies `inFlight
      ensures Model() == DrainTimeouts(old(Model()), nowUs)
      ensures forall sn :: sn in out <==> sn in Expired(old(Model()), nowUs)
      ensures forall sn :: sn in out <==>
                sn in old(inFlight) && (timeoutUs == 0 || nowUs >= old(inFlight)[sn] + timeoutUs)
      ensures forall i, j :: 0 <= i < j < |out| ==> out[i] < out[j]
    {
      hide Expired, Draining;
      ghost var expired := Expired(Model(), nowUs);
      ghost var was := inFlight;
      out := [];
      var left := set sn | sn in inFlight && SaturatingSub(nowUs, inFlight[sn]) >= timeoutUs;
      DrainingEnds(Model(), nowUs, left);
      while left != {}
        invariant Draining(out, inFlight, left, was, expired)
        decreases |left|
      {
        assert MinKey(left) in left;
        var sn :| sn in left && forall k :: k in left ==> sn <= k;
        DrainingStep(out, inFlight, left, was, expired, sn);
        inFlight := inFlight - {sn};
        out := out + [sn];
        left := left - {sn};
      }
      DrainingDone(out, inFlight, was, expired);
    }
  }

  /** Half way through a drain: what is not left was removed and reported, in order and before what is. */
  ghost predicate Draining(out: seq<nat>, flight: map<nat, nat>, left: set<nat>, was: map<nat, nat>,
                           expired: set<nat>)
  {
    && left <= expired && flight == was - (expired - left)
    && (forall sn :: sn in out <==> sn in expired && sn !in left)
    && (forall i, j :: 0 <= i < j < |out| ==> out[i] < out[j])
    && (forall i, sn :: 0 <= i < |out| && sn in left ==> out[i] < sn)
  }

  lemma DrainingEnds(s: State, nowUs: nat, left: set<nat>)
    requires left == set sn | sn in s.inFlight && SaturatingSub(nowUs, s.inFlight[sn]) >= s.timeoutUs
    ensures Draining([], s.inFlight, left, s.inFlight, Expired(s, nowUs))
    ensures forall sn :: sn in Expired(s, nowUs) <==>
              sn in s.inFlight && (s.timeoutUs == 0 || nowUs >= s.inFlight[sn] + s.timeoutUs)
  {
    assert s.inFlight == s.inFlight - (Expired(s, nowUs) - left);
  }

  lemma DrainingStep(out: seq<nat>, flight: map<nat, nat>, left: set<nat>, was: map<nat, nat>, expired: set<nat>,
                     sn: nat)
    requires Draining(out, flight, left, was, expired)
    requires sn in left && forall k :: k in left ==> sn <= k
    ensures Draining(out + [sn], flight - {sn}, left - {sn}, was, expired)
  {
    assert expired - (left - {sn}) == (expired - left) + {sn};
  }

  lemma DrainingDone(out: seq<nat>, flight: map<nat, nat>, was: map<nat, nat>, expired: set<nat>)
    requires Draining(out, flight, {}, was, expired)
    ensures flight == was - expired
    ensures forall sn :: sn in out <==> sn in expired
    ensures forall i, j :: 0 <= i < j < |out| ==> out[i] < out[j]
  {
    assert expired - {} == expired;
  }

  /** A probe expires at its timeout, not only after it. */
  lemma TimeoutIsInclusive(nowUs: nat, intervalUs: nat, timeoutUs: nat)
    ensures Expired(Issue(Init(intervalUs, timeoutUs), nowUs), nowUs + timeoutUs) == {0}
  {
  }

  // ----- Whole runs

  datatype Event = Issued(nowUs: nat) | Acked(sn: nat, nowUs: nat) | Drained(nowUs: nat)

  /** What a run has done: the probes handed out, acknowledged and drained. */
  datatype Ledger = Ledger(issued: set<nat>, acked: multiset<nat>, drained: multiset<nat>)

  function Step(s: State, e: Event): State {
    match e
    case Issued(nowUs) => Issue(s, nowUs)
    case Acked(sn, _) => OnAck(s, sn)
    case Drained(nowUs) => DrainTimeouts(s, nowUs)
  }

  ghost function Entered(s: State, l: Ledger, e: Event): Ledger {
    match e
    case Issued(_) => l.(issued := l.issued + {s.nextSeq})
    case Acked(sn, _) => if sn in s.inFlight then l.(acked := l.acked + multiset{sn}) else l
    case Drained(nowUs) => l.(drained := l.drained + multiset(Expired(s, nowUs)))
  }

  ghost function Run(intervalUs: nat, timeoutUs: nat, events: seq<Event>): (State, Ledger) {
    if events == [] then (Init(intervalUs, timeoutUs), Ledger({}, multiset{}, multiset{}))
    else
      var (s, l) := Run(intervalUs, timeoutUs, events[..|events| - 1]);
      (Step(s, events[|events| - 1]), Entered(s, l, events[|events| - 1]))
  }

  function InFlight(s: State, sn: nat): nat {
    if sn in s.inFlight then 1 else 0
  }

  /** Every issued probe is in exactly one of the three places, once. */
  ghost predicate Accounted(s: State, l: Ledger) {
    && (forall sn :: sn in l.issued <==> 0 <= sn < s.nextSeq)
    && (forall sn :: l.acked[sn] + l.drained[sn] + InFlight(s, sn) == if sn in l.issued then 1 else 0)
  }

  lemma StartAccounted(intervalUs: nat, timeoutUs: nat)
    ensures Accounted(Init(intervalUs, timeoutUs), Ledger({}, multiset{}, multiset{}))
  {
  }

  /** How many probes a run issues. */
  function Issues(events: seq<Event>): nat {
    if events == [] then 0 else Issues(events[..|events| - 1]) + if events[|events| - 1].Issued? then 1 else 0
  }

  lemma StepAccounted(s: State, l: Ledger, e: Event)
    requires Accounted(s, l) && (e.Issued? ==> s.nextSeq + 1 < WORD)
    ensures Accounted(Step(s, e), Entered(s, l, e))
  {
    match e
    case Issued(_) => assert s.nextSeq !in l.issued;
    case Acked(sn, _) =>
    case Drained(nowUs) =>
      var expired := Expired(s, nowUs);
      forall sn
        ensures multiset(expired)[sn] + InFlight(Step(s, e), sn) == InFlight(s, sn)
      {
      }
  }

  /** Each issued probe is acknowledged once, drained once, or in flight, and nothing else is. */
  lemma {:induction false} EachProbeOnce(intervalUs: nat, timeoutUs: nat, events: seq<Event>)
    requires Issues(events) < WORD
    ensures var (s, l) := Run(intervalUs, timeoutUs, events);
            Accounted(s, l) && s.nextSeq == Issues(events)
  {
    hide Accounted, Entered;
    if events == [] {
      StartAccounted(intervalUs, timeoutUs);
    } else {
      var init := events[..|events| - 1];
      EachProbeOnce(intervalUs, timeoutUs, init);
      var (s, l) := Run(intervalUs, timeoutUs, init);
      StepAccounted(s, l, events[|events| - 1]);
    }
  }

  // ----- What is in flight and what a drain reports, told from the events alone

  /** Event `j` settles probe `sn`, sent at `sentUs`: it hands the number out again, acknowledges it,
      or is a drain at or after the timeout. */
  ghost predicate Settles(timeoutUs: nat, events: seq<Event>, j: nat, sn: nat, sentUs: nat)
    requires j < |events|
  {
    match events[j]
    case Issued(_) => Issues(events[..j]) % WORD == sn
    case Acked(k, _) => k == sn
    case Drained(nowUs) => timeoutUs == 0 || nowUs >= sentUs + timeoutUs
  }

  /** Event `i` hands out `sn`, and nothing after it settles it. Numbers are handed out in order from
      zero and wrap. */
  ghost predicate OpenSince(timeoutUs: nat, events: seq<Event>, sn: nat, i: int) {
    && 0 <= i < |events| && events[i].Issued? && Issues(events[..i]) % WORD == sn
    && forall j :: i < j < |events| ==> !Settles(timeoutUs, events, j, sn, events[i].nowUs)
  }

  lemma {:induction false} NextIsIssues(intervalUs: nat, timeoutUs: nat, events: seq<Event>)
    ensures var s := Run(intervalUs, timeoutUs, events).0;
            s.nextSeq == Issues(events) % WORD && s.intervalUs == intervalUs && s.timeoutUs == timeoutUs
  {
    if events != [] {
      NextIsIssues(intervalUs, timeoutUs, events[..|events| - 1]);
    }
  }

  lemma OpenStep(timeoutUs: nat, events: seq<Event>, sn: nat, i: nat)
    requires i < |events| - 1
    ensures OpenSince(timeoutUs, events, sn, i) <==>
            && OpenSince(timeoutUs, events[..|events| - 1], sn, i)
            && !Settles(timeoutUs, events, |events| - 1, sn, events[i].nowUs)
  {
    hide Issues;
    var n := |events| - 1;
    var init := events[..n];
    assert forall j :: 0 <= j < n ==> init[j] == events[j] && init[..j] == events[..j];
    assert forall j, t :: 0 <= j < n ==> (Settles(timeoutUs, init, j, sn, t) <==> Settles(timeoutUs, events, j, sn, t));
  }

  lemma FlightStep(s: State, events: seq<Event>, sn: nat)
    requires events != [] && s.nextSeq == Issues(events[..|events| - 1]) % WORD
    ensures var (n, flight, flight') := (|events| - 1, s.inFlight, Step(s, events[|events| - 1]).inFlight);
            if events[n].Issued? && s.nextSeq == sn then sn in flight' && flight'[sn] == events[n].nowUs
            else
              && (sn in flight' <==> sn in flight && !Settles(s.timeoutUs, events, n, sn, flight[sn]))
              && (sn in flight' ==> flight'[sn] == flight[sn])
  {
    hide Issues;
  }

  lemma {:induction false} OpenIsInFlight(intervalUs: nat, timeoutUs: nat, events: seq<Event>, sn: nat, i: nat)
    requires OpenSince(timeoutUs, events, sn, i)
    ensures var flight := Run(intervalUs, timeoutUs, events).0.inFlight;
            sn in flight && flight[sn] == events[i].nowUs
  {
    hide Issues, Step;
    var n := |events| - 1;
    NextIsIssues(intervalUs, timeoutUs, events[..n]);
    FlightStep(Run(intervalUs, timeoutUs, events[..n]).0, events, sn);
    if i < n {
      OpenStep(timeoutUs, events, sn, i);
      OpenIsInFlight(intervalUs, timeoutUs, events[..n], sn, i);
    }
  }

  lemma {:induction false} InFlightIsOpen(intervalUs: nat, timeoutUs: nat, events: seq<Event>, sn: nat) returns (i: nat)
    requires sn in Run(intervalUs, timeoutUs, events).0.inFlight
    ensures OpenSince(timeoutUs, events, sn, i)
  {
    hide Issues, Step;
    var n := |events| - 1;
    NextIsIssues(intervalUs, timeoutUs, events[..n]);
    FlightStep(Run(intervalUs, timeoutUs, events[..n]).0, events, sn);
    if events[n].Issued? && Issues(events[..n]) % WORD == sn {
      i := n;
    } else {
      i := InFlightIsOpen(intervalUs, timeoutUs, events[..n], sn);
      OpenIsInFlight(intervalUs, timeoutUs, events[..n], sn, i);
      OpenStep(timeoutUs, events, sn, i);
    }
  }

  /** In every run, also once the numbers have wrapped: a probe is in flight, with the time it was sent,
      exactly when some event handed it out and none has settled it since. */
  lemma InFlightIff(intervalUs: nat, timeoutUs: nat, events: seq<Event>, sn: nat)
    ensures var s := Run(intervalUs, timeoutUs, events).0;
            && (sn in s.inFlight <==> exists i :: OpenSince(timeoutUs, events, sn, i))
            && (forall i :: OpenSince(timeoutUs, events, sn, i) ==>
                  sn in s.inFlight && s.inFlight[sn] == events[i].nowUs)
  {
    if sn in Run(intervalUs, timeoutUs, events).0.inFlight {
      var i := InFlightIsOpen(intervalUs, timeoutUs, events, sn);
    }
    forall i | OpenSince(timeoutUs, events, sn, i)
      ensures sn in Run(intervalUs, timeoutUs, events).0.inFlight
      ensures Run(intervalUs, timeoutUs, events).0.inFlight[sn] == events[i].nowUs
    {
      OpenIsInFlight(intervalUs, timeoutUs, events, sn, i);
    }
  }

  /** In every run a drain reports exactly the probes that were handed out, have not been settled since,
      and were sent the timeout or longer ago: none early, none late, none twice. */
  lemma DrainReportsIff(intervalUs: nat, timeoutUs: nat, events: seq<Event>, nowUs: nat, sn: nat)
    requires timeoutUs > 0
    ensures sn in Expired(Run(intervalUs, timeoutUs, events).0, nowUs) <==>
            exists i :: OpenSince(timeoutUs, events, sn, i) && nowUs >= events[i].nowUs + timeoutUs
  {
    hide OpenSince, Run;
    InFlightIff(intervalUs, timeoutUs, events, sn);
    NextIsIssues(intervalUs, timeoutUs, events);
  }

  /** Event `i` is the latest that handed out a probe. */
  ghost predicate LastIssued(events: seq<Event>, i: int) {
    0 <= i < |events| && events[i].Issued? && forall j :: i < j < |events| ==> !events[j].Issued?
  }

  lemma {:induction false} LastSendIff(intervalUs: nat, timeoutUs: nat, events: seq<Event>)
    ensures var s := Run(intervalUs, timeoutUs, events).0;
            && (s.lastSendUs.Some? <==> exists i :: LastIssued(events, i))
            && (forall i :: LastIssued(events, i) ==> s.lastSendUs == Some(events[i].nowUs))
  {
    if events != [] {
      var n := |events| - 1;
      LastSendIff(intervalUs, timeoutUs, events[..n]);
      if events[n].Issued? {
        assert LastIssued(events, n);
      } else {
        assert forall i :: LastIssued(events, i) <==> LastIssued(events[..n], i);
      }
    }
  }

  /** In every run a probe is due exactly when none was sent or the last one was sent an interval or
      longer ago. */
  lemma DueIff(intervalUs: nat, timeoutUs: nat, events: seq<Event>, nowUs: nat)
    requires intervalUs > 0
    ensures IsDue(Run(intervalUs, timeoutUs, events).0, nowUs) <==>
            forall i :: LastIssued(events, i) ==> nowUs >= events[i].nowUs + intervalUs
  {
    hide Run;
    LastSendIff(intervalUs, timeoutUs, events);
    NextIsIssues(intervalUs, timeoutUs, events);
  }

  // ----- How many can be in flight

  /** Probes are issued as the pipeline does: right after draining at the same time, when due. */
  ghost predicate Disciplined(intervalUs: nat, timeoutUs: nat, events: seq<Event>) {
    forall i :: 0 <= i < |events| && events[i].Issued? ==>
      && i > 0 && events[i - 1] == Drained(events[i].nowUs)
      && IsDue(Run(intervalUs, timeoutUs, events[..i]).0, events[i].nowUs)
  }

  /** The time over which `k` intervals stretch. */
  function Span(k: nat, interval: nat): nat {
    k * interval
  }

  /** In-flight probes were sent at least an interval apart, and the oldest was recent enough when
      the newest was sent. */
  ghost predicate Paced(s: State) {
    && (s.inFlight != map[] ==> s.lastSendUs.Some?)
    && forall sn :: sn in s.inFlight ==>
         && 0 <= sn < s.nextSeq
         && s.inFlight[sn] + Span(s.nextSeq - 1 - sn, s.intervalUs) <= s.lastSendUs.value
         && Span(s.nextSeq - 1 - sn, s.intervalUs) < s.timeoutUs
  }

  lemma IssuePaced(s: State, nowUs: nat)
    requires Paced(s) && IsDue(s, nowUs) && Expired(s, nowUs) == {}
    requires s.intervalUs > 0 && s.timeoutUs > 0 && s.nextSeq + 1 < WORD
    ensures Paced(Issue(s, nowUs))
  {
    hide Span;
    SpanStep(0, s.intervalUs);
    var s' := Issue(s, nowUs);
    forall sn | sn in s'.inFlight
      ensures && 0 <= sn < s'.nextSeq
              && s'.inFlight[sn] + Span(s'.nextSeq - 1 - sn, s.intervalUs) <= nowUs
              && Span(s'.nextSeq - 1 - sn, s.intervalUs) < s.timeoutUs
    {
      if sn != s.nextSeq {
        assert sn !in Expired(s, nowUs);
        SpanStep(s.nextSeq - 1 - sn, s.intervalUs);
      }
    }
  }

  lemma SpanStep(k: nat, interval: nat)
    ensures Span(0, interval) == 0 && Span(k + 1, interval) == Span(k, interval) + interval
  {
  }

  /** A drain leaves nothing expired at its time. */
  lemma DrainLeavesFresh(s: State, nowUs: nat)
    ensures Expired(DrainTimeouts(s, nowUs), nowUs) == {}
  {
  }

  lemma StepPaced(s: State, e: Event)
    requires Paced(s) && !e.Issued?
    ensures Paced(Step(s, e))
  {
  }

  lemma {:induction false} RunPaced(intervalUs: nat, timeoutUs: nat, events: seq<Event>)
    requires intervalUs > 0 && timeoutUs > 0 && Issues(events) < WORD && Disciplined(intervalUs, timeoutUs, events)
    ensures var s := Run(intervalUs, timeoutUs, events).0;
            Paced(s) && s.intervalUs == intervalUs && s.timeoutUs == timeoutUs
  {
    hide Accounted, Paced, IsDue, Expired;
    if events == [] {
      StartPaced(intervalUs, timeoutUs);
    } else {
      var n := |events| - 1;
      var init, e := events[..n], events[n];
      assert forall i :: 0 <= i <= n ==> init[..i] == events[..i];
      RunPaced(intervalUs, timeoutUs, init);
      EachProbeOnce(intervalUs, timeoutUs, init);
      var s := Run(intervalUs, timeoutUs, init).0;
      if e.Issued? {
        assert init[n - 1] == Drained(e.nowUs);
        DrainLeavesFresh(Run(intervalUs, timeoutUs, init[..n - 1]).0, e.nowUs);
        IssuePaced(s, e.nowUs);
      } else {
        StepPaced(s, e);
      }
    }
  }

  lemma StartPaced(intervalUs: nat, timeoutUs: nat)
    ensures Paced(Init(intervalUs, timeoutUs))
  {
  }

  lemma BelowCeil(k: nat, interval: nat, timeout: nat)
    requires interval > 0 && k * interval < timeout
    ensures k < DivCeil(timeout, interval)
  {
    var c := DivCeil(timeout, interval);
    assert c * interval >= timeout;
    MulMonotone(c, k, interval);
  }

  /** At most `ceil(timeout / interval)` probes are ever in flight, whatever the clock does. */
  lemma InFlightBound(intervalUs: nat, timeoutUs: nat, events: seq<Event>)
    requires intervalUs > 0 && timeoutUs > 0 && Issues(events) < WORD && Disciplined(intervalUs, timeoutUs, events)
    ensures |Run(intervalUs, timeoutUs, events).0.inFlight| <= DivCeil(timeoutUs, intervalUs)
  {
    hide Run, Disciplined;
    RunPaced(intervalUs, timeoutUs, events);
    var s := Run(intervalUs, timeoutUs, events).0;
    var c := DivCeil(timeoutUs, intervalUs);
    forall sn | sn in s.inFlight ensures s.nextSeq - c <= sn < s.nextSeq {
      BelowCeil(s.nextSeq - 1 - sn, intervalUs, timeoutUs);
    }
    RangeSize(s.inFlight.Keys, if s.nextSeq < c then 0 else s.nextSeq - c, s.nextSeq);
  }
}

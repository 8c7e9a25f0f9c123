/** The reorder buffer: packets are released in sequence, and a gap is skipped when the window or
    the timeout says the missing packets are lost. */
module ReorderModel {
  import opened Arithmetic

  datatype Pending<T> = Pending(payload: T, receivedAtMs: nat)

  /** A delivered packet, with the sequence number it was pushed under. */
  datatype Packet<T> = Packet(sn: nat, payload: T)

  datatype State<T> = State(
    nextExpected: nat,
    pending: map<nat, Pending<T>>,
    window: nat,
    gapTimeoutMs: nat,
    initialised: bool,
    delivered: nat,
    lost: nat,
    duplicates: nat)

  function Init<T>(window: nat, gapTimeoutMs: nat): State<T> {
    State(0, map[], window, gapTimeoutMs, false, 0, 0, 0)
  }

  /** Without the packet that is next in sequence. */
  function Released<T>(s: State<T>): State<T> {
    s.(pending := s.pending - {s.nextExpected}, nextExpected := s.nextExpected + 1, delivered := s.delivered + 1)
  }

  /** Release every packet that is now next in sequence. */
  function Drain<T>(s: State<T>): (State<T>, seq<Packet<T>>)
    decreases |s.pending|
  {
    if s.nextExpected in s.pending then
      var (s', out) := Drain(Released(s));
      (s', [Packet(s.nextExpected, s.pending[s.nextExpected].payload)] + out)
    else (s, [])
  }

  /** The buffered packets past `sn`: what a force-skip to `sn` retains. */
  function Above<T>(pending: map<nat, Pending<T>>, sn: nat): (r: map<nat, Pending<T>>)
    ensures |r| <= |pending|
  {
    var r := map k | k in pending && k > sn :: pending[k];
    assert pending.Keys == r.Keys + (pending.Keys - r.Keys);
    r
  }

  function Receive<T>(s: State<T>, sn: nat, payload: T, nowMs: nat): (State<T>, seq<Packet<T>>) {
    if !s.initialised then
      (s.(initialised := true, nextExpected := sn + 1, delivered := s.delivered + 1), [Packet(sn, payload)])
    else if sn < s.nextExpected || sn in s.pending then
      (s.(duplicates := s.duplicates + 1), [])
    else if sn >= s.nextExpected + s.window then
      var (s', out) := Drain(s.(lost := s.lost + (sn - s.nextExpected), nextExpected := sn + 1,
                                delivered := s.delivered + 1, pending := Above(s.pending, sn)));
      (s', [Packet(sn, payload)] + out)
    else if sn == s.nextExpected then
      var (s', out) := Drain(s.(nextExpected := sn + 1, delivered := s.delivered + 1));
      (s', [Packet(sn, payload)] + out)
    else
      (s.(pending := s.pending[sn := Pending(payload, nowMs)]), [])
  }

  /** `now.saturating_sub(received)`. */
  function Age(nowMs: nat, receivedAtMs: nat): nat {
    if nowMs < receivedAtMs then 0 else nowMs - receivedAtMs
  }

  /** Some buffered packet has waited the gap timeout or longer. */
  ghost predicate TimedOut<T>(s: State<T>, nowMs: nat) {
    exists k :: k in s.pending && Age(nowMs, s.pending[k].receivedAtMs) >= s.gapTimeoutMs
  }

  ghost function PollTimeout<T>(s: State<T>, nowMs: nat): (State<T>, seq<Packet<T>>) {
    if !TimedOut(s, nowMs) then (s, [])
    else
      Drain(SkipGap(s))
  }

  /** Declare the numbers before the first buffered packet lost. */
  ghost function SkipGap<T>(s: State<T>): State<T>
    requires s.pending != map[]
  {
    var first := MinKey(s.pending.Keys);
    if first > s.nextExpected then s.(lost := s.lost + (first - s.nextExpected), nextExpected := first) else s
  }

  /** Draining releases consecutive numbers starting at the expected one and stops at a gap. */
  ghost predicate Drained<T>(s: State<T>, s': State<T>, out: seq<Packet<T>>) {
    && s' == s.(pending := s'.pending, nextExpected := s.nextExpected + |out|, delivered := s.delivered + |out|)
    && (forall i :: 0 <= i < |out| ==>
          out[i].sn == s.nextExpected + i && out[i].sn in s.pending && out[i].payload == s.pending[out[i].sn].payload)
    && (forall k :: k in s'.pending <==> k in s.pending && !(s.nextExpected <= k < s'.nextExpected))
    && (forall k :: k in s'.pending ==> s'.pending[k] == s.pending[k])
    && s'.nextExpected !in s'.pending
    && |s.pending| == |s'.pending| + |out|
  }

  lemma DrainedNothing<T>(s: State<T>)
    requires s.nextExpected !in s.pending
    ensures Drained(s, s, [])
  {
  }

  lemma {:induction false} DrainFacts<T>(s: State<T>)
    ensures Drained(s, Drain(s).0, Drain(s).1)
    decreases |s.pending|
  {
    hide Drained;
    if s.nextExpected !in s.pending {
      DrainedNothing(s);
    } else {
      var n := s.nextExpected;
      var t := s.(pending := s.pending - {n}, nextExpected := n + 1, delivered := s.delivered + 1);
      DrainFacts(t);
      DrainedCons(s, t, Drain(t).0, Drain(t).1);
    }
  }

  lemma DrainedCons<T>(s: State<T>, t: State<T>, s': State<T>, out: seq<Packet<T>>)
    requires s.nextExpected in s.pending
    requires t == Released(s)
    requires Drained(t, s', out)
    ensures Drained(s, s', [Packet(s.nextExpected, s.pending[s.nextExpected].payload)] + out)
  {
    var out' := [Packet(s.nextExpected, s.pending[s.nextExpected].payload)] + out;
    assert |s.pending| == |t.pending| + 1;
    forall i | 0 <= i < |out'|
      ensures && out'[i].sn == s.nextExpected + i && out'[i].sn in s.pending
              && out'[i].payload == s.pending[out'[i].sn].payload
    {
      if i > 0 {
        assert out'[i] == out[i - 1];
        assert out[i - 1].sn in t.pending;
      }
    }
  }

  // ----- Whole runs, with what a run has seen so far

  datatype Event<T> = Pushed(sn: nat, payload: T, nowMs: nat) | Polled(nowMs: nat)

  /** The packets delivered so far, the payload and time of the first push of each number, the first
      number, how many pushes there were, and how many buffered packets a force-skip threw away. */
  datatype History<T> = History(
    out: seq<Packet<T>>,
    first: map<nat, Pending<T>>,
    start: nat,
    pushes: nat,
    discarded: nat)

  ghost function Step<T>(s: State<T>, e: Event<T>): (State<T>, seq<Packet<T>>) {
    match e
    case Pushed(sn, payload, nowMs) => Receive(s, sn, payload, nowMs)
    case Polled(nowMs) => PollTimeout(s, nowMs)
  }

  ghost predicate ForceSkips<T>(s: State<T>, e: Event<T>) {
    e.Pushed? && s.initialised && e.sn >= s.nextExpected && e.sn !in s.pending && e.sn >= s.nextExpected + s.window
  }

  ghost function Record<T>(s: State<T>, h: History<T>, e: Event<T>): History<T> {
    var out := h.out + Step(s, e).1;
    match e
    case Polled(_) => h.(out := out)
    case Pushed(sn, payload, nowMs) =>
      History(
        out,
        if sn in h.first then h.first else h.first[sn := Pending(payload, nowMs)],
        if h.pushes > 0 then h.start else sn,
        h.pushes + 1,
        h.discarded + if ForceSkips(s, e) then |s.pending| - |Above(s.pending, sn)| else 0)
  }

  ghost function Run<T>(window: nat, gapTimeoutMs: nat, events: seq<Event<T>>): (State<T>, History<T>) {
    if events == [] then (Init(window, gapTimeoutMs), History([], map[], 0, 0, 0))
    else
      var (s, h) := Run(window, gapTimeoutMs, events[..|events| - 1]);
      var e := events[|events| - 1];
      (Step(s, e).0, Record(s, h, e))
  }

  ghost predicate Increasing<T>(out: seq<Packet<T>>) {
    forall i, j :: 0 <= i < j < |out| ==> out[i].sn < out[j].sn
  }

  /** Deliveries are in order, below the expected number, and carry the first payload pushed. */
  ghost predicate DeliveredInOrder<T>(s: State<T>, h: History<T>) {
    && Increasing(h.out)
    && (forall i :: 0 <= i < |h.out| ==>
          h.out[i].sn < s.nextExpected && h.out[i].sn in h.first && h.out[i].payload == h.first[h.out[i].sn].payload)
  }

  /** Every number ever pushed is settled or buffered, and what is buffered is the first push. */
  ghost predicate BufferedFirst<T>(s: State<T>, h: History<T>) {
    && (forall k :: k in s.pending ==> k in h.first && h.first[k] == s.pending[k])
    && (forall k :: k in h.first ==> k < s.nextExpected || k in s.pending)
  }

  ghost predicate Counted<T>(s: State<T>, h: History<T>) {
    && s.delivered == |h.out|
    && s.delivered + s.lost + h.start == s.nextExpected
    && h.pushes == s.delivered + s.duplicates + |s.pending| + h.discarded
  }

  /** What holds between the jump of `next_expected` and the drain that follows it. */
  ghost predicate Loose<T>(s: State<T>, h: History<T>) {
    && s.initialised && h.pushes > 0 && DeliveredInOrder(s, h) && BufferedFirst(s, h) && Counted(s, h)
    && forall k :: k in s.pending ==> s.nextExpected <= k < s.nextExpected + s.window
  }

  /** What holds of every reachable state. */
  ghost predicate Consistent<T>(s: State<T>, h: History<T>) {
    if s.initialised then Loose(s, h) && s.nextExpected !in s.pending
    else s == Init(s.window, s.gapTimeoutMs) && h == History([], map[], 0, 0, 0)
  }

  ghost predicate SameConfig<T>(s: State<T>, s': State<T>) {
    s'.window == s.window && s'.gapTimeoutMs == s.gapTimeoutMs
  }

  lemma DrainConsistent<T>(s: State<T>, h: History<T>)
    requires Loose(s, h)
    ensures Consistent(Drain(s).0, h.(out := h.out + Drain(s).1)) && SameConfig(s, Drain(s).0)
  {
    DrainFacts(s);
    var (s', out) := Drain(s);
    var h' := h.(out := h.out + out);
    assert DeliveredInOrder(s', h');
  }

  /** The state and history just after the pushed packet is delivered, before the drain. */
  ghost function Jump<T>(s: State<T>, sn: nat): State<T>
    requires sn >= s.nextExpected
  {
    s.(nextExpected := sn + 1, delivered := s.delivered + 1, lost := s.lost + (sn - s.nextExpected),
       pending := Above(s.pending, sn))
  }

  ghost function JumpHistory<T>(s: State<T>, h: History<T>, sn: nat, payload: T, nowMs: nat): History<T> {
    h.(out := h.out + [Packet(sn, payload)], first := h.first[sn := Pending(payload, nowMs)],
       pushes := h.pushes + 1,
       discarded := h.discarded + (|s.pending| - |Above(s.pending, sn)|))
  }

  lemma JumpLoose<T>(s: State<T>, h: History<T>, sn: nat, payload: T, nowMs: nat)
    requires Loose(s, h) && sn >= s.nextExpected && sn !in s.pending
    ensures sn !in h.first && Loose(Jump(s, sn), JumpHistory(s, h, sn, payload, nowMs))
  {
    assert sn !in h.first;
  }

  lemma JumpDrain<T>(s: State<T>, h: History<T>, sn: nat, payload: T, nowMs: nat)
    requires Loose(s, h) && sn >= s.nextExpected && sn !in s.pending
    ensures sn !in h.first && SameConfig(s, Drain(Jump(s, sn)).0)
    ensures Consistent(Drain(Jump(s, sn)).0,
                       JumpHistory(s, h, sn, payload, nowMs)
                       .(out := h.out + ([Packet(sn, payload)] + Drain(Jump(s, sn)).1)))
  {
    hide Drain, Loose, Consistent;
    JumpLoose(s, h, sn, payload, nowMs);
    var t, h1 := Jump(s, sn), JumpHistory(s, h, sn, payload, nowMs);
    DrainConsistent(t, h1);
    assert h.out + ([Packet(sn, payload)] + Drain(t).1) == h1.out + Drain(t).1;
  }

  /** Above the expected number nothing is dropped. */
  lemma AboveAll<T>(pending: map<nat, Pending<T>>, sn: nat)
    requires forall k :: k in pending ==> k > sn
    ensures Above(pending, sn) == pending
  {
  }

  /** A push that delivers is a jump to its number followed by a drain. */
  lemma PushIsJump<T>(s: State<T>, h: History<T>, e: Event<T>)
    requires e.Pushed? && s.initialised && e.sn >= s.nextExpected && e.sn !in s.pending && e.sn !in h.first
    requires e.sn >= s.nextExpected + s.window || e.sn == s.nextExpected
    requires h.pushes > 0 && forall k :: k in s.pending ==> k > s.nextExpected
    ensures var (t, drained) := Drain(Jump(s, e.sn));
            var out := [Packet(e.sn, e.payload)] + drained;
            && Step(s, e) == (t, out)
            && Record(s, h, e) == JumpHistory(s, h, e.sn, e.payload, e.nowMs).(out := h.out + out)
  {
    hide Drain;
    if e.sn == s.nextExpected {
      AboveAll(s.pending, e.sn);
    }
  }

  lemma ReleaseConsistent<T>(s: State<T>, h: History<T>, e: Event<T>)
    requires Consistent(s, h) && e.Pushed? && s.initialised && e.sn >= s.nextExpected && e.sn !in s.pending
    requires e.sn >= s.nextExpected + s.window || e.sn == s.nextExpected
    ensures Consistent(Step(s, e).0, Record(s, h, e)) && SameConfig(s, Step(s, e).0)
  {
    hide Drain, DeliveredInOrder, BufferedFirst, Counted, Step, Record, Jump, JumpHistory;
    JumpDrain(s, h, e.sn, e.payload, e.nowMs);
    PushIsJump(s, h, e);
  }

  lemma PushConsistent<T>(s: State<T>, h: History<T>, e: Event<T>)
    requires Consistent(s, h) && e.Pushed?
    ensures Consistent(Step(s, e).0, Record(s, h, e)) && SameConfig(s, Step(s, e).0)
  {
    if s.initialised && e.sn >= s.nextExpected && e.sn !in s.pending {
      if e.sn >= s.nextExpected + s.window || e.sn == s.nextExpected {
        ReleaseConsistent(s, h, e);
      } else {
        assert e.sn !in h.first;
      }
    }
  }

  lemma PollConsistent<T>(s: State<T>, h: History<T>, nowMs: nat)
    requires Consistent(s, h)
    ensures Consistent(PollTimeout(s, nowMs).0, h.(out := h.out + PollTimeout(s, nowMs).1))
    ensures SameConfig(s, PollTimeout(s, nowMs).0)
  {
    if !TimedOut(s, nowMs) {
      assert h.out + [] == h.out;
    } else {
      hide MinKey, Drain, TimedOut;
      DrainConsistent(SkipGap(s), h);
    }
  }

  /** Every reachable state is consistent with its history. */
  lemma {:induction false} RunConsistent<T>(window: nat, gapTimeoutMs: nat, events: seq<Event<T>>)
    ensures var (s, h) := Run(window, gapTimeoutMs, events);
            Consistent(s, h) && s.window == window && s.gapTimeoutMs == gapTimeoutMs
  {
    if events != [] {
      hide Consistent, Receive, PollTimeout;
      var init, e := events[..|events| - 1], events[|events| - 1];
      RunConsistent(window, gapTimeoutMs, init);
      var (s, h) := Run(window, gapTimeoutMs, init);
      if e.Pushed? {
        PushConsistent(s, h, e);
      } else {
        PollConsistent(s, h, e.nowMs);
      }
    }
  }

  /** The guarantees of every run: deliveries are strictly increasing (so none is repeated) and
      each carries the payload first pushed under its number; every number up to the expected one
      was delivered or counted lost; every push was delivered, refused as a repeat, is waiting, or
      was thrown away by a force-skip; and fewer packets wait than the window is wide. */
  lemma ReorderGuarantees<T>(window: nat, gapTimeoutMs: nat, events: seq<Event<T>>)
    ensures var (s, h) := Run(window, gapTimeoutMs, events);
            && Increasing(h.out)
            && (forall i :: 0 <= i < |h.out| ==>
                  h.out[i].sn in h.first && h.out[i].payload == h.first[h.out[i].sn].payload)
            && s.delivered == |h.out|
            && (s.initialised ==> s.delivered + s.lost == s.nextExpected - h.start)
            && h.pushes == s.delivered + s.duplicates + |s.pending| + h.discarded
            && (forall k :: k in s.pending ==> s.nextExpected < k < s.nextExpected + window)
            && (|s.pending| < window || s.pending == map[])
  {
    hide Run;
    RunConsistent(window, gapTimeoutMs, events);
    var (s, h) := Run(window, gapTimeoutMs, events);
    if s.pending != map[] {
      var k :| k in s.pending;
      RangeSize(s.pending.Keys, s.nextExpected + 1, s.nextExpected + window);
    }
  }

  // ----- Runs that lose nothing, told from the events alone

  /** The first push of each number, with its time. */
  ghost function Arrivals<T>(events: seq<Event<T>>): map<nat, Pending<T>> {
    if events == [] then map[]
    else
      var arrived, e := Arrivals(events[..|events| - 1]), events[|events| - 1];
      if e.Pushed? && e.sn !in arrived then arrived[e.sn := Pending(e.payload, e.nowMs)] else arrived
  }

  /** The number pushed first. */
  ghost function FirstNumber<T>(events: seq<Event<T>>): nat {
    if events == [] then 0
    else
      var init, e := events[..|events| - 1], events[|events| - 1];
      if e.Pushed? && Arrivals(init) == map[] then e.sn else FirstNumber(init)
  }

  /** Some number from the first one on, and before `k`, has not arrived. */
  ghost predicate BehindGap<T>(events: seq<Event<T>>, k: nat) {
    exists m :: FirstNumber(events) <= m < k && m !in Arrivals(events)
  }

  /** A push comes after every number that is a window or more before it, and a poll comes before
      anything waiting behind a gap has waited the timeout. */
  ghost predicate TimelyNext<T>(window: nat, gapTimeoutMs: nat, events: seq<Event<T>>, e: Event<T>) {
    match e
    case Pushed(sn, _, _) =>
      Arrivals(events) == map[] ||
      forall k :: FirstNumber(events) <= k < sn && k + window <= sn ==> k in Arrivals(events)
    case Polled(nowMs) =>
      forall k :: k in Arrivals(events) && BehindGap(events, k) ==>
                    gapTimeoutMs > 0 && nowMs < Arrivals(events)[k].receivedAtMs + gapTimeoutMs
  }

  ghost predicate Timely<T>(window: nat, gapTimeoutMs: nat, events: seq<Event<T>>) {
    events == [] ||
    var init := events[..|events| - 1];
    Timely(window, gapTimeoutMs, init) && TimelyNext(window, gapTimeoutMs, init, events[|events| - 1])
  }

  lemma {:induction false} HistoryFromEvents<T>(window: nat, gapTimeoutMs: nat, events: seq<Event<T>>)
    ensures var h := Run(window, gapTimeoutMs, events).1;
            && h.first == Arrivals(events) && h.start == FirstNumber(events)
            && (h.pushes == 0 <==> Arrivals(events) == map[])
  {
    if events != [] {
      hide Step;
      HistoryFromEvents(window, gapTimeoutMs, events[..|events| - 1]);
    }
  }

  /** The event skips numbers. */
  ghost predicate Skips<T>(s: State<T>, e: Event<T>) {
    match e
    case Pushed(sn, _, _) => s.initialised && sn > s.nextExpected && sn !in s.pending && sn >= s.nextExpected + s.window
    case Polled(nowMs) => TimedOut(s, nowMs)
  }

  /** Packets with consecutive numbers from `n` on. */
  ghost predicate Consecutive<T>(out: seq<Packet<T>>, n: nat) {
    forall i :: 0 <= i < |out| ==> out[i].sn == n + i
  }

  lemma DrainLoses<T>(s: State<T>)
    ensures Drain(s).0.lost == s.lost && Consecutive(Drain(s).1, s.nextExpected)
  {
    DrainFacts(s);
  }

  lemma PushLoses<T>(s: State<T>, h: History<T>, e: Event<T>)
    requires Consistent(s, h) && e.Pushed?
    ensures Step(s, e).0.lost >= s.lost && (Step(s, e).0.lost == s.lost <==> !Skips(s, e))
    ensures !Skips(s, e) ==> Consecutive(Step(s, e).1, if s.initialised then s.nextExpected else e.sn)
  {
    hide Drain, DeliveredInOrder, BufferedFirst, Counted;
    if s.initialised && e.sn >= s.nextExpected && e.sn !in s.pending {
      if e.sn >= s.nextExpected + s.window {
        DrainLoses(Jump(s, e.sn));
      } else if e.sn == s.nextExpected {
        DrainLoses(s.(nextExpected := e.sn + 1, delivered := s.delivered + 1));
      }
    }
  }

  lemma PollLoses<T>(s: State<T>, h: History<T>, nowMs: nat)
    requires Consistent(s, h)
    ensures PollTimeout(s, nowMs).0.lost >= s.lost
    ensures PollTimeout(s, nowMs).0.lost == s.lost <==> !TimedOut(s, nowMs)
    ensures !TimedOut(s, nowMs) ==> PollTimeout(s, nowMs).1 == []
  {
    hide Drain, DeliveredInOrder, BufferedFirst, Counted;
    if TimedOut(s, nowMs) {
      DrainLoses(SkipGap(s));
    }
  }

  /** While nothing is lost, every number from the first to the expected one was delivered. */
  ghost predicate Gapless<T>(s: State<T>, h: History<T>) {
    s.lost == 0 ==> Consecutive(h.out, h.start)
  }

  lemma GaplessStep<T>(s: State<T>, h: History<T>, e: Event<T>)
    requires Consistent(s, h) && Gapless(s, h)
    ensures Step(s, e).0.lost >= s.lost && (Step(s, e).0.lost == s.lost <==> !Skips(s, e))
    ensures Gapless(Step(s, e).0, Record(s, h, e))
  {
    hide Receive, PollTimeout, TimedOut, DeliveredInOrder, BufferedFirst;
    if e.Pushed? {
      PushLoses(s, h, e);
    } else {
      PollLoses(s, h, e.nowMs);
    }
  }

  /** In a state that has lost nothing, the next event skips exactly when it is not timely. */
  lemma SkipsIffUntimely<T>(window: nat, gapTimeoutMs: nat, events: seq<Event<T>>, e: Event<T>)
    requires Run(window, gapTimeoutMs, events).0.lost == 0
    requires Gapless(Run(window, gapTimeoutMs, events).0, Run(window, gapTimeoutMs, events).1)
    ensures Skips(Run(window, gapTimeoutMs, events).0, e) <==> !TimelyNext(window, gapTimeoutMs, events, e)
  {
    hide Run;
    RunConsistent(window, gapTimeoutMs, events);
    HistoryFromEvents(window, gapTimeoutMs, events);
    var (s, h) := Run(window, gapTimeoutMs, events);
    if s.initialised {
      ArrivedThrough(s, h);
      match e
      case Pushed(sn, _, _) => PushSkipsIff(s, h, sn);
      case Polled(nowMs) => PollSkipsIff(s, h, events, nowMs);
    }
  }

  /** While nothing is lost, the expected number is the first that has not arrived. */
  lemma ArrivedThrough<T>(s: State<T>, h: History<T>)
    requires Consistent(s, h) && s.initialised && s.lost == 0 && Gapless(s, h)
    ensures h.start <= s.nextExpected && s.nextExpected !in h.first
    ensures forall k :: h.start <= k < s.nextExpected ==> k in h.first
  {
    forall k | h.start <= k < s.nextExpected ensures k in h.first {
      assert h.out[k - h.start].sn == k;
    }
  }

  lemma PushSkipsIff<T>(s: State<T>, h: History<T>, sn: nat)
    requires BufferedFirst(s, h) && h.start <= s.nextExpected && s.nextExpected !in h.first
    requires forall k :: h.start <= k < s.nextExpected ==> k in h.first
    requires forall k :: k in s.pending ==> s.nextExpected <= k < s.nextExpected + s.window
    ensures (sn > s.nextExpected && sn !in s.pending && sn >= s.nextExpected + s.window) <==>
            !(forall k :: h.start <= k < sn && k + s.window <= sn ==> k in h.first)
  {
  }

  lemma PollSkipsIff<T>(s: State<T>, h: History<T>, events: seq<Event<T>>, nowMs: nat)
    requires BufferedFirst(s, h) && h.start <= s.nextExpected && s.nextExpected !in h.first
    requires forall k :: h.start <= k < s.nextExpected ==> k in h.first
    requires forall k :: k in s.pending ==> s.nextExpected < k
    requires h.first == Arrivals(events) && h.start == FirstNumber(events)
    ensures TimedOut(s, nowMs) <==> !TimelyNext(s.window, s.gapTimeoutMs, events, Polled(nowMs))
  {
    forall k ensures k in s.pending <==> k in h.first && BehindGap(events, k) {
      if k in s.pending {
        assert h.start <= s.nextExpected < k;
      }
    }
  }

  lemma {:induction false} LostIff<T>(window: nat, gapTimeoutMs: nat, events: seq<Event<T>>)
    ensures var (s, h) := Run(window, gapTimeoutMs, events);
            (s.lost == 0 <==> Timely(window, gapTimeoutMs, events)) && Gapless(s, h)
  {
    if events != [] {
      hide Step, Skips, Gapless, TimelyNext, Consistent, Record;
      var init, e := events[..|events| - 1], events[|events| - 1];
      LostIff(window, gapTimeoutMs, init);
      RunConsistent(window, gapTimeoutMs, init);
      var (s, h) := Run(window, gapTimeoutMs, init);
      GaplessStep(s, h, e);
      if s.lost == 0 {
        SkipsIffUntimely(window, gapTimeoutMs, init, e);
      }
    }
  }

  lemma GaplessDelivery<T>(s: State<T>, h: History<T>)
    requires Consistent(s, h) && s.initialised && s.lost == 0 && Gapless(s, h)
    ensures h.start + |h.out| == s.nextExpected && s.nextExpected !in h.first
    ensures forall i :: 0 <= i < |h.out| ==> h.out[i].sn == h.start + i
    ensures forall i :: 0 <= i < |h.out| ==> h.out[i].sn in h.first && h.out[i].payload == h.first[h.out[i].sn].payload
    ensures forall k :: k in s.pending <==> k in h.first && k > s.nextExpected
    ensures forall k :: k in s.pending ==> s.pending[k] == h.first[k]
  {
    ArrivedThrough(s, h);
  }

  /** A run loses nothing exactly when every push comes after the numbers a window before it and no
      poll finds a packet that has waited the timeout behind a gap. Then what was delivered is every
      number from the first one to the first that has not arrived, in order, each with the payload
      it first arrived with, and what waits is every arrival past that one. */
  lemma NothingLostIff<T>(window: nat, gapTimeoutMs: nat, events: seq<Event<T>>)
    ensures var (s, h) := Run(window, gapTimeoutMs, events);
            var (start, arrived) := (FirstNumber(events), Arrivals(events));
            && (s.lost == 0 <==> Timely(window, gapTimeoutMs, events))
            && (s.lost == 0 && arrived != map[] ==>
                  && start + |h.out| == s.nextExpected && s.nextExpected !in arrived
                  && (forall i :: 0 <= i < |h.out| ==> h.out[i].sn == start + i)
                  && (forall i :: 0 <= i < |h.out| ==>
                        h.out[i].sn in arrived && h.out[i].payload == arrived[h.out[i].sn].payload)
                  && (forall k :: k in s.pending <==> k in arrived && k > s.nextExpected)
                  && (forall k :: k in s.pending ==> s.pending[k] == arrived[k]))
  {
    hide Run, TimelyNext, DeliveredInOrder, BufferedFirst, Counted;
    LostIff(window, gapTimeoutMs, events);
    RunConsistent(window, gapTimeoutMs, events);
    HistoryFromEvents(window, gapTimeoutMs, events);
    var (s, h) := Run(window, gapTimeoutMs, events);
    if s.lost == 0 && h.pushes > 0 {
      GaplessDelivery(s, h);
    }
  }

  /** In every run, a packet that is new, ahead of the expected one and inside the window is kept
      waiting with the time it came: nothing is delivered and nothing else changes. */
  lemma AheadWaits<T>(window: nat, gapTimeoutMs: nat, events: seq<Event<T>>, e: Event<T>)
    requires e.Pushed? && e.sn !in Arrivals(events) && Arrivals(events) != map[]
    requires var n := Run(window, gapTimeoutMs, events).0.nextExpected; n < e.sn < n + window
    ensures var s := Run(window, gapTimeoutMs, events).0;
            && Step(s, e).1 == []
            && Step(s, e).0 == s.(pending := s.pending[e.sn := Pending(e.payload, e.nowMs)])
  {
    hide Run;
    RunConsistent(window, gapTimeoutMs, events);
    HistoryFromEvents(window, gapTimeoutMs, events);
  }

  /** `out` is the unbroken run of waiting packets from number `n` on, and the rest still waits. */
  ghost predicate ReleasesRun<T>(pending: map<nat, Pending<T>>, n: nat, out: seq<Packet<T>>,
                                 pending': map<nat, Pending<T>>)
  {
    && (forall i :: 0 <= i < |out| ==>
          out[i].sn == n + i && out[i].sn in pending && out[i].payload == pending[out[i].sn].payload)
    && n + |out| !in pending
    && (forall k :: k in pending' <==> k in pending && !(n <= k < n + |out|))
    && (forall k :: k in pending' ==> pending'[k] == pending[k])
  }

  lemma DrainReleasesRun<T>(s: State<T>)
    ensures var (s', out) := Drain(s);
            && ReleasesRun(s.pending, s.nextExpected, out, s'.pending)
            && s' == s.(pending := s'.pending, nextExpected := s.nextExpected + |out|, delivered := s.delivered + |out|)
  {
    hide Drain;
    DrainFacts(s);
  }

  /** In every run, a poll that finds a packet past its timeout declares lost exactly the numbers
      before the first waiting one, and delivers the unbroken run of packets from that one on. */
  lemma PollSkipsFirstGap<T>(window: nat, gapTimeoutMs: nat, events: seq<Event<T>>, nowMs: nat, first: nat)
    requires TimedOut(Run(window, gapTimeoutMs, events).0, nowMs)
    requires var pending := Run(window, gapTimeoutMs, events).0.pending;
             first in pending && forall k :: k in pending ==> first <= k
    ensures var s := Run(window, gapTimeoutMs, events).0;
            var (s', out) := PollTimeout(s, nowMs);
            && out != [] && ReleasesRun(s.pending, first, out, s'.pending)
            && s'.nextExpected == first + |out| && s'.lost == s.lost + (first - s.nextExpected)
            && s'.delivered == s.delivered + |out| && s'.duplicates == s.duplicates
  {
    hide Run, Drain, TimedOut;
    RunConsistent(window, gapTimeoutMs, events);
    var s := Run(window, gapTimeoutMs, events).0;
    assert MinKey(s.pending.Keys) == first;
    DrainReleasesRun(SkipGap(s));
  }

  /** In every run, the expected packet is delivered at once, with the unbroken run of waiting packets
      behind it, and nothing is lost. */
  lemma ExpectedReleasesRun<T>(window: nat, gapTimeoutMs: nat, events: seq<Event<T>>, e: Event<T>)
    requires Run(window, gapTimeoutMs, events).0.initialised
    requires e.Pushed? && e.sn == Run(window, gapTimeoutMs, events).0.nextExpected
    ensures var s := Run(window, gapTimeoutMs, events).0;
            var (s', out) := Step(s, e);
            && out != [] && out[0] == Packet(e.sn, e.payload)
            && ReleasesRun(s.pending, e.sn + 1, out[1..], s'.pending)
            && s' == s.(pending := s'.pending, nextExpected := e.sn + |out|, delivered := s.delivered + |out|)
  {
    hide Run, Drain, DeliveredInOrder, BufferedFirst, Counted, ReleasesRun;
    RunConsistent(window, gapTimeoutMs, events);
    var s := Run(window, gapTimeoutMs, events).0;
    AboveAll(s.pending, e.sn);
    DrainReleasesRun(s.(nextExpected := e.sn + 1, delivered := s.delivered + 1));
  }

  /** A force-skip delivers exactly the packet that caused it and leaves the buffer empty. */
  lemma ForceSkipEmpties<T>(window: nat, gapTimeoutMs: nat, events: seq<Event<T>>, e: Event<T>)
    requires ForceSkips(Run(window, gapTimeoutMs, events).0, e)
    ensures var s := Run(window, gapTimeoutMs, events).0;
            Step(s, e).0.pending == map[] && Step(s, e).1 == [Packet(e.sn, e.payload)]
  {
    RunConsistent(window, gapTimeoutMs, events);
    var s := Run(window, gapTimeoutMs, events).0;
    assert Above(s.pending, e.sn) == map[];
  }

  /** A poll releases something exactly when some buffered packet has waited long enough. */
  lemma PollReleasesIff<T>(s: State<T>, h: History<T>, nowMs: nat)
    requires Consistent(s, h)
    ensures PollTimeout(s, nowMs).1 != [] <==> TimedOut(s, nowMs)
    ensures |PollTimeout(s, nowMs).0.pending| + |PollTimeout(s, nowMs).1| == |s.pending|
  {
    hide MinKey, Drain, DeliveredInOrder, BufferedFirst, Counted;
    if TimedOut(s, nowMs) {
      DrainFacts(SkipGap(s));
    }
  }

  /** A packet behind a gap is released at its timeout, not only after it. */
  lemma GapTimeoutIsInclusive<T>(payload: T, timeoutMs: nat)
    requires timeoutMs > 0
    ensures var s := Run(8, timeoutMs, [Pushed(0, payload, 0), Pushed(2, payload, 0)]).0;
            PollTimeout(s, timeoutMs).1 != [] && PollTimeout(s, timeoutMs - 1).1 == []
  {
    var first, both := [Pushed(0, payload, 0)], [Pushed(0, payload, 0), Pushed(2, payload, 0)];
    assert both[..1] == first && first[..0] == [];
    assert Run(8, timeoutMs, first).0 == Init(8, timeoutMs).(initialised := true, nextExpected := 1, delivered := 1);
    var (s, h) := Run(8, timeoutMs, both);
    assert s.pending == map[2 := Pending(payload, 0)];
    RunConsistent(8, timeoutMs, both);
    PollReleasesIff(s, h, timeoutMs);
    PollReleasesIff(s, h, timeoutMs - 1);
  }

  ghost function PollTimes<T>(s: State<T>, nowMs: nat, n: nat): State<T>
    decreases n
  {
    if n == 0 then s else PollTimes(PollTimeout(s, nowMs).0, nowMs, n - 1)
  }

  /** Polling at a fixed time settles: after at most as many releasing polls as packets waited,
      nothing buffered has waited long enough any more. */
  lemma {:induction false} PollSettles<T>(s: State<T>, h: History<T>, nowMs: nat) returns (n: nat)
    requires Consistent(s, h)
    ensures n <= |s.pending| && !TimedOut(PollTimes(s, nowMs, n), nowMs)
    ensures forall i :: 0 <= i < n ==> TimedOut(PollTimes(s, nowMs, i), nowMs)
    decreases |s.pending|
  {
    if !TimedOut(s, nowMs) {
      n := 0;
    } else {
      PollReleasesIff(s, h, nowMs);
      PollConsistent(s, h, nowMs);
      var s' := PollTimeout(s, nowMs).0;
      n := PollSettles(s', h.(out := h.out + PollTimeout(s, nowMs).1), nowMs);
      n := n + 1;
      forall i | 0 <= i < n ensures TimedOut(PollTimes(s, nowMs, i), nowMs) {
        if i > 0 {
          assert PollTimes(s, nowMs, i) == PollTimes(s', nowMs, i - 1);
        }
      }
    }
  }

  // ----- The object

  function Payloads<T>(out: seq<Packet<T>>): (r: seq<T>)
    ensures |r| == |out|
  {
    if out == [] then [] else [out[0].payload] + Payloads(out[1..])
  }

  lemma DrainStep<T>(s: State<T>)
    requires s.nextExpected in s.pending
    ensures var t := Released(s);
            && Drain(s).0 == Drain(t).0
            && Payloads(Drain(s).1) == [s.pending[s.nextExpected].payload] + Payloads(Drain(t).1)
  {
  }

  lemma DrainDone<T>(s: State<T>)
    requires s.nextExpected !in s.pending
    ensures Drain(s).0 == s && Payloads(Drain(s).1) == []
  {
  }

  class ReorderBuffer<T> {
    var nextExpected: nat
    var pending: map<nat, Pending<T>>
    const window: nat
    const gapTimeoutMs: nat
    var initialised: bool
    var delivered: nat
    var lost: nat
    var duplicates: nat

    function Model(): State<T>
      reads this
    {
      State(nextExpected, pending, window, gapTimeoutMs, initialised, delivered, lost, duplicates)
    }

    constructor (window: nat, gapTimeoutMs: nat)
      ensures Model() == Init(window, gapTimeoutMs)
    {
      nextExpected, pending, this.window, this.gapTimeoutMs := 0, map[], window, gapTimeoutMs;
      initialised, delivered, lost, duplicates := false, 0, 0, 0;
    }

    /** Feed one packet; the payloads now ready, in order. */
    method Push(sn: nat, payload: T, nowMs: nat) returns (out: seq<T>)
      modifies this
      ensures Model() == Receive(old(Model()), sn, payload, nowMs).0
      ensures out == Payloads(Receive(old(Model()), sn, payload, nowMs).1)
      ensures old(initialised && nextExpected < sn < nextExpected + window && sn !in pending) ==>
                out == [] && Model() == old(Model()).(pending := old(pending)[sn := Pending(payload, nowMs)])
    {
      hide Drain;
      if !initialised {
        initialised, nextExpected, delivered := true, sn + 1, delivered + 1;
        return [payload];
      }
      if sn < nextExpected {
        duplicates := duplicates + 1;
        return [];
      }
      if sn in pending {
        duplicates := duplicates + 1;
        return [];
      }
      if sn >= nextExpected + window {
        lost := lost + (sn - nextExpected);
        nextExpected, delivered := sn + 1, delivered + 1;
        pending := map k | k in pending && k > sn :: pending[k];
        var rest := DrainContiguous();
        return [payload] + rest;
      }
      if sn == nextExpected {
        nextExpected, delivered := nextExpected + 1, delivered + 1;
        var rest := DrainContiguous();
        return [payload] + rest;
      }
      pending := pending[sn := Pending(payload, nowMs)];
      return [];
    }

    method DrainContiguous() returns (out: seq<T>)
      modifies this
      ensures Model() == Drain(old(Model())).0 && out == Payloads(Drain(old(Model())).1)
    {
      hide Drain, Payloads;
      out := [];
      while nextExpected in pending
        invariant Drain(Model()).0 == Drain(old(Model())).0
        invariant out + Payloads(Drain(Model()).1) == Payloads(Drain(old(Model())).1)
        decreases |pending|
      {
        DrainStep(Model());
        out := out + [pending[nextExpected].payload];
        pending := pending - {nextExpected};
        nextExpected := nextExpected + 1;
        delivered := delivered + 1;
      }
      DrainDone(Model());
    }

    /** The largest age among the buffered packets. */
    method OldestAge(nowMs: nat) returns (age: nat)
      requires pending != map[]
      ensures exists k :: k in pending && Age(nowMs, pending[k].receivedAtMs) == age
      ensures forall k :: k in pending ==> Age(nowMs, pending[k].receivedAtMs) <= age
    {
      var first :| first in pending;
      age := Age(nowMs, pending[first].receivedAtMs);
      var left := pending.Keys - {first};
      while left != {}
        invariant left <= pending.Keys
        invariant exists k :: k in pending && Age(nowMs, pending[k].receivedAtMs) == age
        invariant forall k :: k in pending && k !in left ==> Age(nowMs, pending[k].receivedAtMs) <= age
        decreases |left|
      {
        var k :| k in left;
        if Age(nowMs, pending[k].receivedAtMs) > age {
          age := Age(nowMs, pending[k].receivedAtMs);
        }
        left := left - {k};
      }
    }

    /** The smallest buffered number. */
    method SmallestKey() returns (k: nat)
      requires pending != map[]
      ensures k == MinKey(pending.Keys)
    {
      k :| k in pending;
      var left := pending.Keys - {k};
      while left != {}
        invariant left <= pending.Keys && k in pending
        invariant forall j :: j in pending && j !in left ==> k <= j
        decreases |left|
      {
        var j :| j in left;
        if j < k {
          k := j;
        }
        left := left - {j};
      }
    }

    method Poll(nowMs: nat) returns (out: seq<T>)
      modifies this
      ensures Model() == PollTimeout(old(Model()), nowMs).0
      ensures out == Payloads(PollTimeout(old(Model()), nowMs).1)
    {
      if pending == map[] {
        return [];
      }
      var age := OldestAge(nowMs);
      if age < gapTimeoutMs {
        return [];
      }
      assert TimedOut(Model(), nowMs);
      var oldest := SmallestKey();
      if oldest > nextExpected {
        lost := lost + (oldest - nextExpected);
        nextExpected := oldest;
      }
      out := DrainContiguous();
    }
  }
}
